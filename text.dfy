/** String helpers with the meaning Rust's `str` gives them: UTF-8 byte length,
    `trim`, `starts_with`/`ends_with`, `lines`, and splitting into words. */
module Text {

  /** Bytes taken by `c` in UTF-8. */
  function Utf8Width(c: char): (n: nat)
    ensures 1 <= n <= 4
    ensures (c as int < 0x80) <==> n == 1
  {
    if c as int < 0x80 then 1
    else if c as int < 0x800 then 2
    else if c as int < 0x10000 then 3
    else 4
  }

  /** `str::len`: the UTF-8 byte length, which can exceed the character count. */
  function Utf8Len(s: string): (n: nat)
    ensures |s| <= n <= 4 * |s|
  {
    if s == [] then 0 else Utf8Width(s[0]) + Utf8Len(s[1..])
  }

  lemma {:induction false} Utf8LenAscii(s: string)
    requires forall i :: 0 <= i < |s| ==> s[i] as int < 0x80
    ensures Utf8Len(s) == |s|
  {
    if s != [] {
      Utf8LenAscii(s[1..]);
    }
  }

  /** Unicode `White_Space`, the set `char::is_whitespace` and `str::trim` use. */
  predicate IsWhitespace(c: char) {
    var n := c as int;
    (9 <= n <= 13) || n == 32 || n == 0x85 || n == 0xA0 || n == 0x1680
    || (0x2000 <= n <= 0x200A) || n == 0x2028 || n == 0x2029 || n == 0x202F
    || n == 0x205F || n == 0x3000
  }

  predicate IsBlank(s: string) {
    forall i :: 0 <= i < |s| ==> IsWhitespace(s[i])
  }

  /** `str::trim_start`: the suffix left after dropping leading whitespace. */
  function TrimStart(s: string): (r: string)
    ensures |r| <= |s| && r == s[|s| - |r|..]
    ensures r == [] || !IsWhitespace(r[0])
    ensures forall i :: 0 <= i < |s| - |r| ==> IsWhitespace(s[i])
  {
    if s != [] && IsWhitespace(s[0]) then TrimStart(s[1..]) else s
  }

  /** `str::trim_end`: the prefix left after dropping trailing whitespace. */
  function TrimEnd(s: string): (r: string)
    ensures |r| <= |s| && r == s[..|r|]
    ensures r == [] || !IsWhitespace(r[|r| - 1])
    ensures forall i :: |r| <= i < |s| ==> IsWhitespace(s[i])
  {
    if s != [] && IsWhitespace(s[|s| - 1]) then TrimEnd(s[..|s| - 1]) else s
  }

  /** `str::trim`: `s` without leading and trailing whitespace; what is
      dropped on either side is whitespace only. */
  function Trim(s: string): (r: string)
    ensures r == [] || (!IsWhitespace(r[0]) && !IsWhitespace(r[|r| - 1]))
    ensures var a := |s| - |TrimStart(s)|;
            a + |r| <= |s| && r == s[a..a + |r|]
    ensures var a := |s| - |TrimStart(s)|;
            forall i :: 0 <= i < a ==> IsWhitespace(s[i])
    ensures var a := |s| - |TrimStart(s)|;
            forall i :: a + |r| <= i < |s| ==> IsWhitespace(s[i])
  {
    var t := TrimStart(s);
    var r := TrimEnd(t);
    TrimSlice(s, t, r);
    r
  }

  /** A prefix `r` of a suffix `t` of `s` sits in `s` at the offset of `t`. */
  lemma TrimSlice(s: string, t: string, r: string)
    requires |t| <= |s| && t == s[|s| - |t|..]
    requires |r| <= |t| && r == t[..|r|]
    requires forall i :: |r| <= i < |t| ==> IsWhitespace(t[i])
    ensures var a := |s| - |t|;
            a + |r| <= |s| && r == s[a..a + |r|]
    ensures var a := |s| - |t|;
            forall j :: a + |r| <= j < |s| ==> IsWhitespace(s[j])
  {
    var a := |s| - |t|;
    forall j | a + |r| <= j < |s| ensures IsWhitespace(s[j]) {
      assert s[j] == t[j - a];
    }
  }

  /** Byte lengths add up over concatenation. */
  lemma {:induction false} Utf8LenAppend(a: string, b: string)
    ensures Utf8Len(a + b) == Utf8Len(a) + Utf8Len(b)
    decreases |a|
  {
    if a != [] {
      assert (a + b)[0] == a[0] && (a + b)[1..] == a[1..] + b;
      Utf8LenAppend(a[1..], b);
    } else {
      assert a + b == b;
    }
  }

  /** Trimming leaves nothing exactly when the text is all whitespace. */
  lemma TrimBlank(s: string)
    ensures Trim(s) == [] <==> IsBlank(s)
  {
    var t := TrimStart(s);
    var r := TrimEnd(t);
    assert r == [] ==> t == [];
    assert t != [] ==> !IsWhitespace(s[|s| - |t|]);
  }

  /** Leading whitespace does not survive trimming, so trimming a trimmed text
      after indenting it gives it back. */
  lemma {:induction false} TrimIndented(ws: string, t: string)
    requires IsBlank(ws)
    requires t != [] && !IsWhitespace(t[0]) && !IsWhitespace(t[|t| - 1])
    ensures Trim(ws + t) == t
  {
    TrimStartBlankPrefix(ws, t);
    assert TrimEnd(t) == t;
  }

  lemma {:induction false} TrimStartBlankPrefix(ws: string, t: string)
    requires IsBlank(ws)
    requires t != [] && !IsWhitespace(t[0])
    ensures TrimStart(ws + t) == t
  {
    if ws == [] {
      assert ws + t == t;
    } else {
      assert (ws + t)[1..] == ws[1..] + t;
      TrimStartBlankPrefix(ws[1..], t);
    }
  }

  predicate StartsWith(s: string, prefix: string) {
    |prefix| <= |s| && s[..|prefix|] == prefix
  }

  predicate EndsWith(s: string, suffix: string) {
    |suffix| <= |s| && s[|s| - |suffix|..] == suffix
  }

  /** `str::repeat` on a one-character string: `k` copies of `c`. */
  function Repeat(c: char, k: nat): (r: string)
    ensures |r| == k && forall i :: 0 <= i < k ==> r[i] == c
  {
    seq(k, _ => c)
  }

  /** Index of the first `'\n'` in `s`, or `|s|` when there is none. */
  function FirstNewline(s: string): (k: nat)
    ensures k <= |s|
    ensures k < |s| ==> s[k] == '\n'
    ensures forall i :: 0 <= i < k ==> s[i] != '\n'
  {
    if s == [] || s[0] == '\n' then 0 else 1 + FirstNewline(s[1..])
  }

  /** Drops the `'\r'` of a `"\r\n"` line ending. */
  function StripCarriageReturn(line: string): string {
    if line != [] && line[|line| - 1] == '\r' then line[..|line| - 1] else line
  }

  /** `str::lines`: the pieces between `'\n'`s, without the `'\r'` of a `"\r\n"`;
      a final line ending does not start an extra empty line. */
  function Lines(s: string): (ls: seq<string>)
    ensures forall i :: 0 <= i < |ls| ==> '\n' !in ls[i]
    ensures ls == [] <==> s == []
    decreases |s|
  {
    if s == [] then []
    else
      var k := FirstNewline(s);
      if k == |s| then [s]
      else [StripCarriageReturn(s[..k])] + Lines(s[k + 1..])
  }

  /** Every line followed by `'\n'`, as text is built with `push_str(line); push('\n')`. */
  function JoinLines(ls: seq<string>): string {
    if ls == [] then [] else ls[0] + "\n" + JoinLines(ls[1..])
  }

  /** No `'\r'` stands right before a `'\n'`. */
  predicate NoCrLf(s: string) {
    forall i :: 0 <= i < |s| - 1 ==> !(s[i] == '\r' && s[i + 1] == '\n')
  }

  lemma NoCrLfSuffix(s: string, j: nat)
    requires NoCrLf(s) && j <= |s|
    ensures NoCrLf(s[j..])
  {
    forall i | 0 <= i < |s[j..]| - 1 ensures !(s[j..][i] == '\r' && s[j..][i + 1] == '\n') {
      assert s[j..][i] == s[j + i] && s[j..][i + 1] == s[j + i + 1];
    }
  }

  /** Text with no `"\r\n"` line ending is its lines joined back, with a
      line break added at the end when it had none. */
  lemma {:induction false} JoinLinesOfLines(s: string)
    requires NoCrLf(s)
    ensures JoinLines(Lines(s)) == if s == [] || s[|s| - 1] == '\n' then s else s + "\n"
    decreases |s|
  {
    if s != [] {
      var k := FirstNewline(s);
      if k == |s| {
        assert JoinLines([s]) == s + "\n" + JoinLines([]);
      } else {
        NoCrLfSuffix(s, k + 1);
        JoinLinesOfLines(s[k + 1..]);
        LineThenRest(s, k);
      }
    }
  }

  /** Joining the first line and the lines after it. */
  lemma LineThenRest(s: string, k: nat)
    requires NoCrLf(s) && k == FirstNewline(s) < |s|
    requires var rest := s[k + 1..];
             JoinLines(Lines(rest)) == if rest == [] || rest[|rest| - 1] == '\n' then rest else rest + "\n"
    ensures JoinLines(Lines(s)) == if s[|s| - 1] == '\n' then s else s + "\n"
  {
    LinesUnfold(s, k);
    JoinLinesCons(s[..k], Lines(s[k + 1..]));
    LineBreakAt(s, k);
    EndWithBreak(s[..k], s[k + 1..], JoinLines(Lines(s[k + 1..])));
  }

  lemma LineBreakAt(s: string, k: nat)
    requires k < |s| && s[k] == '\n'
    ensures s == s[..k] + "\n" + s[k + 1..]
  {
  }

  /** A line, a break, and the rest ended by a break, is the whole ended by one. */
  lemma EndWithBreak(line: string, rest: string, j: string)
    requires j == if rest == [] || rest[|rest| - 1] == '\n' then rest else rest + "\n"
    ensures var s := line + "\n" + rest;
            line + "\n" + j == if s[|s| - 1] == '\n' then s else s + "\n"
  {
    var s := line + "\n" + rest;
    if rest != [] {
      assert s[|s| - 1] == rest[|rest| - 1];
      if rest[|rest| - 1] != '\n' {
        assert line + "\n" + (rest + "\n") == s + "\n";
      }
    }
  }

  /** Without a `"\r\n"`, the first line is the text before the first `'\n'`. */
  lemma LinesUnfold(s: string, k: nat)
    requires NoCrLf(s) && k == FirstNewline(s) < |s|
    ensures Lines(s) == [s[..k]] + Lines(s[k + 1..])
  {
    if k > 0 {
      assert s[k - 1] != '\r';
    }
  }

  lemma JoinLinesCons(l: string, ls: seq<string>)
    ensures JoinLines([l] + ls) == l + "\n" + JoinLines(ls)
  {
    assert ([l] + ls)[1..] == ls;
  }

  /** `lines` undoes `JoinLines` for lines that hold no line ending of their own. */
  lemma {:induction false} LinesOfJoinLines(ls: seq<string>)
    requires forall i :: 0 <= i < |ls| ==> '\n' !in ls[i]
    requires forall i :: 0 <= i < |ls| ==> !EndsWith(ls[i], "\r")
    ensures Lines(JoinLines(ls)) == ls
  {
    if ls != [] {
      var s := JoinLines(ls);
      var l := ls[0];
      assert s == l + ("\n" + JoinLines(ls[1..]));
      FirstNewlineOf(l, "\n" + JoinLines(ls[1..]));
      assert s[..|l|] == l;
      assert s[|l| + 1..] == JoinLines(ls[1..]);
      assert StripCarriageReturn(l) == l;
      LinesOfJoinLines(ls[1..]);
    }
  }

  lemma {:induction false} FirstNewlineOf(l: string, rest: string)
    requires '\n' !in l
    requires rest != [] && rest[0] == '\n'
    ensures FirstNewline(l + rest) == |l|
  {
    if l == [] {
      assert l + rest == rest;
    } else {
      assert (l + rest)[1..] == l[1..] + rest;
      FirstNewlineOf(l[1..], rest);
    }
  }

  /** Length of the run of non-whitespace characters that starts `s`. */
  function WordLen(s: string): (k: nat)
    ensures k <= |s|
    ensures forall i :: 0 <= i < k ==> !IsWhitespace(s[i])
    ensures k < |s| ==> IsWhitespace(s[k])
  {
    if s == [] || IsWhitespace(s[0]) then 0 else 1 + WordLen(s[1..])
  }

  /** The maximal runs of non-whitespace characters of `s`, in order. */
  function Words(s: string): seq<string>
    decreases |s|
  {
    if s == [] then []
    else if IsWhitespace(s[0]) then Words(s[1..])
    else
      var k := WordLen(s);
      [s[..k]] + Words(s[k..])
  }

  /** Whitespace in front of a text adds no word. */
  lemma {:induction false} WordsAfterBlank(ws: string, s: string)
    requires IsBlank(ws)
    ensures Words(ws + s) == Words(s)
  {
    if ws == [] {
      assert ws + s == s;
    } else {
      assert (ws + s)[1..] == ws[1..] + s;
      WordsAfterBlank(ws[1..], s);
    }
  }

  /** A whitespace-free word followed by whitespace (or nothing) is one word. */
  lemma {:induction false} WordsOfWord(w: string, s: string)
    requires w != [] && forall i :: 0 <= i < |w| ==> !IsWhitespace(w[i])
    requires s == [] || IsWhitespace(s[0])
    ensures Words(w + s) == [w] + Words(s)
  {
    WordLenOf(w, s);
    assert (w + s)[..|w|] == w;
    assert (w + s)[|w|..] == s;
  }

  lemma {:induction false} WordLenOf(w: string, s: string)
    requires forall i :: 0 <= i < |w| ==> !IsWhitespace(w[i])
    requires s == [] || IsWhitespace(s[0])
    ensures WordLen(w + s) == |w|
  {
    if w == [] {
      assert w + s == s;
    } else {
      assert (w + s)[1..] == w[1..] + s;
      WordLenOf(w[1..], s);
    }
  }

  /** Text split at a whitespace boundary splits into the words of its parts. */
  lemma {:induction false} WordsConcat(s: string, t: string)
    requires s == [] || t == [] || IsWhitespace(s[|s| - 1]) || IsWhitespace(t[0])
    ensures Words(s + t) == Words(s) + Words(t)
    decreases |s|, 1
  {
    if s == [] {
      assert s + t == t;
    } else if IsWhitespace(s[0]) {
      WordsConcatBlank(s, t);
    } else if WordLen(s) < |s| {
      WordsConcatWord(s, t);
    } else {
      WordsWholeWord(s, t);
    }
  }

  lemma {:induction false} WordsConcatBlank(s: string, t: string)
    requires s != [] && IsWhitespace(s[0])
    requires t == [] || IsWhitespace(s[|s| - 1]) || IsWhitespace(t[0])
    ensures Words(s + t) == Words(s) + Words(t)
    decreases |s|, 0
  {
    WordsBlankHead(s, t);
    WordsConcat(s[1..], t);
  }

  lemma {:induction false} WordsConcatWord(s: string, t: string)
    requires s != [] && !IsWhitespace(s[0]) && WordLen(s) < |s|
    requires t == [] || IsWhitespace(s[|s| - 1]) || IsWhitespace(t[0])
    ensures Words(s + t) == Words(s) + Words(t)
    decreases |s|, 0
  {
    var k := WordLen(s);
    WordsAfterWord(s, t, k);
    WordsConcat(s[k..], t);
  }

  lemma WordsBlankHead(s: string, t: string)
    requires s != [] && IsWhitespace(s[0])
    ensures Words(s) == Words(s[1..]) && Words(s + t) == Words(s[1..] + t)
  {
    assert (s + t)[0] == s[0] && (s + t)[1..] == s[1..] + t;
  }

  lemma WordsAfterWord(s: string, t: string, k: nat)
    requires s != [] && !IsWhitespace(s[0]) && k == WordLen(s) < |s|
    ensures Words(s) == [s[..k]] + Words(s[k..])
    ensures Words(s + t) == [s[..k]] + Words(s[k..] + t)
    ensures IsWhitespace(s[k..][0]) && s[k..][|s[k..]| - 1] == s[|s| - 1]
  {
    WordLenOf(s[..k], s[k..] + t);
    assert s + t == s[..k] + (s[k..] + t);
  }

  lemma WordsWholeWord(s: string, t: string)
    requires s != [] && WordLen(s) == |s|
    requires t == [] || IsWhitespace(t[0])
    ensures Words(s + t) == Words(s) + Words(t)
  {
    WordsOfWord(s, t);
    WordsOfWord(s, []);
    assert s + [] == s;
  }
}
