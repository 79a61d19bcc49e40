/** The handful of Python `str` operations that the dashboard's parsers are built from:
    `s.split(c)`, `c.join(ls)`, `s.strip()`, `s.split()`, `p in s`, `s.startswith(p)`,
    `s.split(c)[k]` and `int(s)` on plain decimal digits. */
module PyStr {

  datatype Option<T> = None | Some(value: T)

  /** Python's `str.isspace()` for one character: the ASCII controls TAB..CR, the
      separators U+001C..U+001F, SPACE, NEL, NBSP and the Unicode space separators. */
  predicate IsSpace(c: char) {
    var n := c as int;
    (9 <= n <= 13) || (0x1C <= n <= 0x20) || n == 0x85 || n == 0xA0 || n == 0x1680
    || (0x2000 <= n <= 0x200A) || n == 0x2028 || n == 0x2029 || n == 0x202F
    || n == 0x205F || n == 0x3000
  }

  predicate IsDigit(c: char) {
    '0' <= c <= '9'
  }

  predicate NoSpace(s: string) {
    forall k :: 0 <= k < |s| ==> !IsSpace(s[k])
  }

  /** `s.startswith(p)` */
  predicate StartsWith(s: string, p: string) {
    |p| <= |s| && s[..|p|] == p
  }

  /** `p` occurs in `s` at index `i` */
  predicate HasAt(s: string, p: string, i: nat) {
    i + |p| <= |s| && s[i..i + |p|] == p
  }

  /** `s.find(p)`: the first index at which `p` occurs, if any */
  function IndexOf(s: string, p: string): (r: Option<nat>)
    ensures r.Some? ==> HasAt(s, p, r.value) && forall j :: 0 <= j < r.value ==> !HasAt(s, p, j)
    ensures r.None? ==> forall j :: 0 <= j ==> !HasAt(s, p, j)
    decreases |s|
  {
    if |s| < |p| then None
    else if s[..|p|] == p then Some(0)
    else
      match IndexOf(s[1..], p)
      case None =>
        assert forall j :: 1 <= j ==> HasAt(s, p, j) == HasAt(s[1..], p, j - 1);
        None
      case Some(k) =>
        assert forall j :: 1 <= j ==> HasAt(s, p, j) == HasAt(s[1..], p, j - 1);
        Some(k + 1)
  }

  /** `p in s` */
  predicate Contains(s: string, p: string) {
    IndexOf(s, p).Some?
  }

  lemma ContainsAt(s: string, p: string, i: nat)
    requires HasAt(s, p, i)
    ensures Contains(s, p)
  {
  }

  // ---------------------------------------------------------------------------
  // strip()

  /** `s.lstrip()` */
  function StripLeft(s: string): (r: string)
    ensures |r| <= |s|
    ensures r != [] ==> !IsSpace(r[0])
  {
    if |s| > 0 && IsSpace(s[0]) then StripLeft(s[1..]) else s
  }

  /** `s.strip()`: drop leading and trailing whitespace */
  function Strip(s: string): (r: string)
    ensures |r| <= |s|
    ensures r == [] || (!IsSpace(r[0]) && !IsSpace(r[|r| - 1]))
  {
    if |s| > 0 && IsSpace(s[0]) then Strip(s[1..])
    else if |s| > 0 && IsSpace(s[|s| - 1]) then Strip(s[..|s| - 1])
    else s
  }

  /** `Strip(s)` is the slice of `s` left between a whitespace-only prefix and a
      whitespace-only suffix; `lo` is where it starts. */
  lemma {:induction false} StripSlice(s: string) returns (lo: nat)
    ensures lo + |Strip(s)| <= |s| && Strip(s) == s[lo..lo + |Strip(s)|]
    ensures forall k :: 0 <= k < lo ==> IsSpace(s[k])
    ensures forall k :: lo + |Strip(s)| <= k < |s| ==> IsSpace(s[k])
    decreases |s|, 1
  {
    if |s| > 0 && IsSpace(s[0]) {
      lo := StripSliceFront(s);
    } else if |s| > 0 && IsSpace(s[|s| - 1]) {
      lo := StripSliceBack(s);
    } else {
      lo := 0;
    }
  }

  lemma {:induction false} StripSliceFront(s: string) returns (lo: nat)
    requires |s| > 0 && IsSpace(s[0])
    ensures lo + |Strip(s)| <= |s| && Strip(s) == s[lo..lo + |Strip(s)|]
    ensures forall k :: 0 <= k < lo ==> IsSpace(s[k])
    ensures forall k :: lo + |Strip(s)| <= k < |s| ==> IsSpace(s[k])
    decreases |s|, 0
  {
    var t := s[1..];
    var r := Strip(t);
    assert Strip(s) == r;
    var lo' := StripSlice(t);
    lo := lo' + 1;
    assert t[lo'..lo' + |r|] == s[lo..lo + |r|];
    forall k | 1 <= k < lo ensures IsSpace(s[k]) {
      assert s[k] == t[k - 1];
    }
    forall k | lo + |r| <= k < |s| ensures IsSpace(s[k]) {
      assert s[k] == t[k - 1];
    }
  }

  lemma {:induction false} StripSliceBack(s: string) returns (lo: nat)
    requires |s| > 0 && !IsSpace(s[0]) && IsSpace(s[|s| - 1])
    ensures lo + |Strip(s)| <= |s| && Strip(s) == s[lo..lo + |Strip(s)|]
    ensures forall k :: 0 <= k < lo ==> IsSpace(s[k])
    ensures forall k :: lo + |Strip(s)| <= k < |s| ==> IsSpace(s[k])
    decreases |s|, 0
  {
    var t := s[..|s| - 1];
    var r := Strip(t);
    assert Strip(s) == r;
    lo := StripSlice(t);
    assert t[lo..lo + |r|] == s[lo..lo + |r|];
    forall k | lo + |r| <= k < |s| - 1 ensures IsSpace(s[k]) {
      assert s[k] == t[k];
    }
  }

  lemma StripLeftOfNonSpace(s: string)
    requires s == [] || !IsSpace(s[0])
    ensures StripLeft(s) == s
  {
  }

  /** A stripped string is left alone by a second `strip()`. */
  lemma StripIdempotent(s: string)
    ensures Strip(Strip(s)) == Strip(s)
  {
  }

  /** `strip()` yields the empty string exactly for all-whitespace input. */
  lemma {:induction false} StripEmptyIff(s: string)
    ensures Strip(s) == [] <==> forall k :: 0 <= k < |s| ==> IsSpace(s[k])
  {
    var lo := StripSlice(s);
    if Strip(s) == [] {
      forall k | 0 <= k < |s| ensures IsSpace(s[k]) {
        if k >= lo {
          assert lo + |Strip(s)| <= k;
        }
      }
    } else {
      var r := Strip(s);
      assert !IsSpace(s[lo]) by { assert s[lo] == r[0]; }
    }
  }

  // ---------------------------------------------------------------------------
  // split(c) and join

  /** `s.split(c)` for a one-character separator: never empty, pieces free of `c`. */
  function Split(s: string, c: char): (r: seq<string>)
    ensures |r| >= 1
    ensures forall k :: 0 <= k < |r| ==> c !in r[k]
  {
    if |s| == 0 then [""]
    else
      var rest := Split(s[1..], c);
      if s[0] == c then [""] + rest
      else [[s[0]] + rest[0]] + rest[1..]
  }

  /** `c.join(ls)` */
  function Join(ls: seq<string>, c: char): string {
    if |ls| == 0 then ""
    else if |ls| == 1 then ls[0]
    else ls[0] + [c] + Join(ls[1..], c)
  }

  /** Joining the pieces of a split gives back the original string. */
  lemma {:induction false} JoinSplit(s: string, c: char)
    ensures Join(Split(s, c), c) == s
  {
    if |s| > 0 {
      var rest := Split(s[1..], c);
      JoinSplit(s[1..], c);
      if s[0] == c {
        assert Split(s, c) == [""] + rest;
        assert Split(s, c)[1..] == rest;
      } else {
        var r := Split(s, c);
        assert r == [[s[0]] + rest[0]] + rest[1..];
        if |rest| == 1 {
          assert s == [s[0]] + s[1..];
        } else {
          assert r[1..] == rest[1..];
          assert Join(rest, c) == rest[0] + [c] + Join(rest[1..], c);
          assert s == [s[0]] + s[1..];
        }
      }
    }
  }

  lemma {:induction false} SplitPrefix(a: string, c: char, b: string)
    requires c !in a
    ensures Split(a + [c] + b, c) == [a] + Split(b, c)
  {
    if |a| == 0 {
      assert a + [c] + b == [c] + b;
      assert ([c] + b)[1..] == b;
    } else {
      assert (a + [c] + b)[1..] == a[1..] + [c] + b;
      SplitPrefix(a[1..], c, b);
      assert [a[0]] + a[1..] == a;
    }
  }

  lemma {:induction false} SplitNoSep(a: string, c: char)
    requires c !in a
    ensures Split(a, c) == [a]
  {
    if |a| > 0 {
      SplitNoSep(a[1..], c);
      assert [a[0]] + a[1..] == a;
    }
  }

  /** Splitting a join of separator-free pieces gives back the pieces. */
  lemma {:induction false} SplitJoin(ls: seq<string>, c: char)
    requires |ls| >= 1
    requires forall k :: 0 <= k < |ls| ==> c !in ls[k]
    ensures Split(Join(ls, c), c) == ls
  {
    if |ls| == 1 {
      SplitNoSep(ls[0], c);
    } else {
      SplitJoin(ls[1..], c);
      SplitPrefix(ls[0], c, Join(ls[1..], c));
      assert [ls[0]] + ls[1..] == ls;
    }
  }

  /** A split has a second piece exactly when the separator occurs. */
  lemma SplitHasSecondIff(s: string, c: char)
    ensures |Split(s, c)| >= 2 <==> c in s
  {
    if c in s {
      if |Split(s, c)| == 1 {
        JoinSplit(s, c);
      }
    } else {
      SplitNoSep(s, c);
    }
  }

  /** `s.split(c)[k]`; `None` stands for the `IndexError` Python raises. */
  function Field(s: string, c: char, k: nat): (r: Option<string>)
    ensures r.Some? <==> k < |Split(s, c)|
    ensures r.Some? ==> c !in r.value
  {
    var ps := Split(s, c);
    if k < |ps| then Some(ps[k]) else None
  }

  /** `s.split(c)[1]` is the text between the first and the second `c` (or the end). */
  lemma SecondField(s: string, c: char) returns (pre: string, rest: string)
    requires c in s
    ensures Field(s, c, 1).Some?
    ensures s == pre + [c] + Field(s, c, 1).value + rest
    ensures c !in pre
    ensures rest == [] || rest[0] == c
  {
    SplitHasSecondIff(s, c);
    var ps := Split(s, c);
    JoinSplit(s, c);
    pre := ps[0];
    if |ps| == 2 {
      rest := [];
      assert Join(ps, c) == ps[0] + [c] + Join(ps[1..], c);
      assert Join(ps[1..], c) == ps[1];
    } else {
      rest := [c] + Join(ps[2..], c);
      assert Join(ps, c) == ps[0] + [c] + Join(ps[1..], c);
      assert ps[1..][1..] == ps[2..];
      assert Join(ps[1..], c) == ps[1] + [c] + Join(ps[2..], c);
    }
  }

  /** The text between the first two `c` of `pre + [c] + v + post` is `v`. */
  lemma FieldBetween(s: string, pre: string, c: char, v: string, post: string)
    requires s == pre + [c] + v + post
    requires c !in pre && c !in v && (post == [] || post[0] == c)
    ensures Field(s, c, 1) == Some(v)
  {
    assert s == pre + [c] + (v + post);
    SplitPrefix(pre, c, v + post);
    if post == [] {
      assert v + post == v;
      SplitNoSep(v, c);
    } else {
      assert v + post == v + [c] + post[1..];
      SplitPrefix(v, c, post[1..]);
    }
  }

  /** The characters of a three-part concatenation, and the middle part's place in it. */
  lemma ConcatChars(a: string, b: string, c: string)
    ensures forall i :: 0 <= i < |a + b + c| ==>
      (a + b + c)[i] == if i < |a| then a[i] else if i < |a| + |b| then b[i - |a|] else c[i - |a| - |b|]
    ensures HasAt(a + b + c, b, |a|) && Contains(a + b + c, b)
  {
    assert (a + b + c)[|a|..|a| + |b|] == b;
    ContainsAt(a + b + c, b, |a|);
  }

  /** A string contains each of its middle parts. */
  lemma ContainsMiddle(a: string, b: string, c: string)
    ensures Contains(a + b + c, b)
  {
    assert (a + b + c)[|a|..|a| + |b|] == b;
    ContainsAt(a + b + c, b, |a|);
  }

  /** When `ch` occurs in neither `a` nor `c`, and in `b` only at `k`, it occurs in
      `a + b + c` only at `|a| + k`. */
  lemma OnlyAt(a: string, b: string, c: string, ch: char, k: nat)
    requires ch !in a && ch !in c
    requires forall i :: 0 <= i < |b| && b[i] == ch ==> i == k
    ensures forall i :: 0 <= i < |a + b + c| && (a + b + c)[i] == ch ==> i == |a| + k
  {
    ConcatChars(a, b, c);
  }

  /** `p` does not occur in `s` when the only place in `s` holding the character `p[k]`
      is `at` and `p` does not occur at `at - k`. */
  lemma AbsentByUniqueChar(s: string, p: string, k: nat, at: nat)
    requires k < |p|
    requires forall i :: 0 <= i < |s| && s[i] == p[k] ==> i == at
    requires at < k || !HasAt(s, p, at - k)
    ensures !Contains(s, p)
  {
    forall j: nat | j + |p| <= |s| && j + k != at
      ensures !HasAt(s, p, j)
    {
      assert s[j..j + |p|][k] == s[j + k] != p[k];
    }
  }

  // ---------------------------------------------------------------------------
  // split() on whitespace

  /** Length of the leading run of non-whitespace characters. */
  function WordLength(s: string): (n: nat)
    ensures n <= |s| && NoSpace(s[..n])
    ensures n < |s| ==> IsSpace(s[n])
  {
    if |s| == 0 || IsSpace(s[0]) then 0 else 1 + WordLength(s[1..])
  }

  /** `s.split()`: the maximal runs of non-whitespace characters, in order. */
  function Words(s: string): (r: seq<string>)
    ensures forall k :: 0 <= k < |r| ==> r[k] != [] && NoSpace(r[k])
    decreases |s|
  {
    var t := StripLeft(s);
    if t == [] then []
    else
      var n := WordLength(t);
      assert n >= 1 && t[..n] != [];
      [t[..n]] + Words(t[n..])
  }

  lemma {:induction false} WordsOfSpaces(s: string)
    requires forall k :: 0 <= k < |s| ==> IsSpace(s[k])
    ensures Words(s) == []
  {
    if |s| > 0 {
      WordsOfSpaces(s[1..]);
    }
  }

  lemma {:induction false} StripLeftSpaced(w: string, rest: string)
    requires forall k :: 0 <= k < |w| ==> IsSpace(w[k])
    ensures StripLeft(w + rest) == StripLeft(rest)
  {
    if |w| > 0 {
      assert (w + rest)[0] == w[0];
      assert (w + rest)[1..] == w[1..] + rest;
      StripLeftSpaced(w[1..], rest);
    } else {
      assert w + rest == rest;
    }
  }

  lemma {:induction false} WordLengthOf(w: string, rest: string)
    requires NoSpace(w)
    requires rest == [] || IsSpace(rest[0])
    ensures WordLength(w + rest) == |w|
  {
    if |w| > 0 {
      assert (w + rest)[1..] == w[1..] + rest;
      WordLengthOf(w[1..], rest);
    } else {
      assert w + rest == rest;
    }
  }

  /** A word followed by whitespace (or nothing) is the first word of the split. */
  lemma WordsCons(w: string, rest: string)
    requires w != [] && NoSpace(w)
    requires rest == [] || IsSpace(rest[0])
    ensures Words(w + rest) == [w] + Words(rest)
  {
    StripLeftOfNonSpace(w + rest);
    WordLengthOf(w, rest);
    assert (w + rest)[..|w|] == w;
    assert (w + rest)[|w|..] == rest;
  }

  /** Leading whitespace does not change the words. */
  lemma WordsSkipSpace(sp: string, rest: string)
    requires forall k :: 0 <= k < |sp| ==> IsSpace(sp[k])
    ensures Words(sp + rest) == Words(rest)
  {
    StripLeftSpaced(sp, rest);
  }

  /** A word, one whitespace character, and the rest: the word comes first. */
  lemma WordsSeparated(w: string, sp: char, rest: string)
    requires w != [] && NoSpace(w) && IsSpace(sp)
    ensures Words(w + [sp] + rest) == [w] + Words(rest)
  {
    var tail := [sp] + rest;
    assert w + [sp] + rest == w + tail;
    WordsCons(w, tail);
    WordsSkipSpace([sp], rest);
  }

  /** The last word of a line. */
  lemma WordsSingle(w: string)
    requires w != [] && NoSpace(w)
    ensures Words(w) == [w]
  {
    WordsCons(w, "");
    WordsOfSpaces("");
    assert w + "" == w;
  }

  lemma NoSpaceConcat(a: string, b: string)
    requires NoSpace(a) && NoSpace(b)
    ensures NoSpace(a + b)
  {
    assert forall k :: 0 <= k < |a + b| ==> (a + b)[k] == if k < |a| then a[k] else b[k - |a|];
  }

  /** Three words, the first two separated by the whitespace character `sp` and the
      last two by a space. */
  lemma WordsOfThree(a: string, sp: char, b: string, c: string)
    requires a != [] && NoSpace(a) && b != [] && NoSpace(b) && c != [] && NoSpace(c)
    requires IsSpace(sp)
    ensures Words(a + [sp] + b + " " + c) == [a, b, c]
  {
    var bc := b + " " + c;
    assert Words(bc) == [b, c] by {
      WordsSingle(c);
      WordsSeparated(b, ' ', c);
    }
    assert Words(a + [sp] + b + " " + c) == [a] + Words(bc) by {
      RegroupThree(a, sp, b, c);
      WordsSeparated(a, sp, bc);
    }
  }

  lemma RegroupThree(a: string, sp: char, b: string, c: string)
    ensures a + [sp] + b + " " + c == a + [sp] + (b + " " + c)
  {
  }

  /** `(key + '=' + value).split('=')[1] == value` when neither holds a `=`. */
  lemma FieldOfPair(key: string, value: string)
    requires '=' !in key && '=' !in value
    ensures Field(key + "=" + value, '=', 1) == Some(value)
  {
    SplitNoSep(value, '=');
    SplitPrefix(key, '=', value);
    assert key + ['='] + value == key + "=" + value;
  }

  // ---------------------------------------------------------------------------
  // int() on decimal digits

  function DigitValue(c: char): nat
    requires IsDigit(c)
  {
    (c as int - '0' as int) as nat
  }

  predicate AllDigits(s: string) {
    forall k :: 0 <= k < |s| ==> IsDigit(s[k])
  }

  function DecimalValue(s: string): nat
    requires AllDigits(s)
  {
    if |s| == 0 then 0 else 10 * DecimalValue(s[..|s| - 1]) + DigitValue(s[|s| - 1])
  }

  /** `int(s)` for a string of decimal digits; `None` stands for the `ValueError`. */
  function ParseNat(s: string): (r: Option<nat>)
    ensures r.Some? <==> s != [] && AllDigits(s)
  {
    if s != [] && AllDigits(s) then Some(DecimalValue(s)) else None
  }

  function DigitChar(d: nat): (c: char)
    requires d < 10
    ensures IsDigit(c) && DigitValue(c) == d
  {
    ('0' as int + d) as char
  }

  /** `str(n)`: the decimal digits of `n`, no leading zeros. */
  function NatToString(n: nat): (s: string)
    ensures s != [] && AllDigits(s)
    ensures |s| > 1 ==> s[0] != '0'
  {
    if n < 10 then [DigitChar(n)]
    else NatToString(n / 10) + [DigitChar(n % 10)]
  }

  /** `int(str(n)) == n` */
  lemma {:induction false} ParseNatToString(n: nat)
    ensures ParseNat(NatToString(n)) == Some(n)
  {
    var s := NatToString(n);
    if n >= 10 {
      ParseNatToString(n / 10);
      assert s[..|s| - 1] == NatToString(n / 10);
      assert DecimalValue(s) == 10 * (n / 10) + n % 10;
    } else {
      assert DecimalValue(s) == 10 * DecimalValue([]) + DigitValue(s[0]);
    }
  }

  // ---------------------------------------------------------------------------
  // readlines() and writelines() on a file's text

  /** A line as `readlines` gives it: non-empty, with a newline at most at its end. */
  predicate IsLine(l: string) {
    l != [] && '\n' !in l[..|l| - 1]
  }

  predicate EndsWithNewline(l: string) {
    l != [] && l[|l| - 1] == '\n'
  }

  /** Lines as `readlines` gives them: every line but the last ends with a newline. */
  predicate WellFormedLines(ls: seq<string>) {
    (forall i :: 0 <= i < |ls| ==> IsLine(ls[i])) &&
    (forall i :: 0 <= i < |ls| - 1 ==> EndsWithNewline(ls[i]))
  }

  /** The length of the first line of `s`, its newline included. */
  function LineEnd(s: string): (n: nat)
    requires s != []
    ensures 0 < n <= |s| && IsLine(s[..n])
    ensures n < |s| ==> EndsWithNewline(s[..n])
  {
    if s[0] == '\n' || |s| == 1 then 1
    else
      var m := LineEnd(s[1..]);
      assert s[..1 + m] == [s[0]] + s[1..][..m];
      1 + m
  }

  /** `f.readlines()` on the file's text. */
  function ReadLinesOf(text: string): (ls: seq<string>)
    decreases |text|
  {
    if text == [] then []
    else
      var n := LineEnd(text);
      [text[..n]] + ReadLinesOf(text[n..])
  }

  /** `f.writelines(ls)`: the lines written one after the other, nothing added. */
  function WriteLines(ls: seq<string>): string {
    if ls == [] then [] else ls[0] + WriteLines(ls[1..])
  }

  lemma {:induction false} WriteLinesAppend(a: seq<string>, b: seq<string>)
    ensures WriteLines(a + b) == WriteLines(a) + WriteLines(b)
  {
    if a == [] {
      assert a + b == b;
    } else {
      assert (a + b)[1..] == a[1..] + b;
      WriteLinesAppend(a[1..], b);
    }
  }

  /** A line that ends with its newline, or is the last thing in the text, is the
      first line read. */
  lemma {:induction false} LineEndOfLine(l: string, rest: string)
    requires IsLine(l) && (EndsWithNewline(l) || rest == [])
    ensures LineEnd(l + rest) == |l|
  {
    var s := l + rest;
    if s[0] != '\n' && |s| > 1 && |l| > 1 {
      var t := l[1..];
      assert t[..|t| - 1] == l[..|l| - 1][1..];
      assert s[1..] == t + rest;
      LineEndOfLine(t, rest);
    }
  }

  /** Writing lines and reading them back gives the same lines. */
  lemma {:induction false} ReadWriteLines(ls: seq<string>)
    requires WellFormedLines(ls)
    ensures ReadLinesOf(WriteLines(ls)) == ls
  {
    if ls != [] {
      var rest := WriteLines(ls[1..]);
      var text := ls[0] + rest;
      assert |ls| == 1 ==> rest == [];
      LineEndOfLine(ls[0], rest);
      assert text[..|ls[0]|] == ls[0] && text[|ls[0]|..] == rest;
      assert WellFormedLines(ls[1..]) by {
        assert forall i :: 0 <= i < |ls| - 1 ==> ls[1..][i] == ls[i + 1];
      }
      ReadWriteLines(ls[1..]);
    }
  }

  /** Reading a text gives well-formed lines, which written back give the text. */
  lemma {:induction false} WriteReadLines(text: string)
    ensures WellFormedLines(ReadLinesOf(text)) && WriteLines(ReadLinesOf(text)) == text
    decreases |text|
  {
    if text != [] {
      var n := LineEnd(text);
      var rest := ReadLinesOf(text[n..]);
      WriteReadLines(text[n..]);
      var ls := ReadLinesOf(text);
      assert ls == [text[..n]] + rest;
      assert forall i :: 1 <= i < |ls| ==> ls[i] == rest[i - 1];
      assert text[..n] + text[n..] == text;
      assert n == |text| ==> rest == [];
    }
  }

  /** Writing a line after a last line that has no newline writes the same text as the
      two lines joined into one. */
  lemma GlueWrites(init: seq<string>, last: string, extra: string)
    ensures WriteLines(init + [last] + [extra]) == WriteLines(init + [last + extra])
  {
    var w := WriteLines(init);
    assert WriteLines(init + [last]) == w + last by { WriteLinesSnoc(init, last); }
    assert WriteLines(init + [last] + [extra]) == w + last + extra by {
      WriteLinesSnoc(init + [last], extra);
    }
    assert WriteLines(init + [last + extra]) == w + (last + extra) by {
      WriteLinesSnoc(init, last + extra);
    }
  }

  lemma WriteLinesSnoc(ls: seq<string>, l: string)
    ensures WriteLines(ls + [l]) == WriteLines(ls) + l
  {
    WriteLinesAppend(ls, [l]);
    assert WriteLines([l]) == l + WriteLines([]);
  }

  /** Joining a line onto a last line that has no newline keeps the lines well-formed. */
  lemma GlueWellFormed(init: seq<string>, last: string, extra: string)
    requires WellFormedLines(init + [last]) && !EndsWithNewline(last) && IsLine(extra)
    ensures WellFormedLines(init + [last + extra])
  {
    var ls, glued := init + [last], init + [last + extra];
    assert ls[|init|] == last;
    assert '\n' !in last;
    assert (last + extra)[..|last + extra| - 1] == last + extra[..|extra| - 1];
    assert forall i :: 0 <= i < |init| ==> glued[i] == ls[i];
  }

  /** A line written after a last line that has no newline is read back as part of that
      line: the text holds no more lines than before. */
  lemma GlueLast(init: seq<string>, last: string, extra: string)
    requires WellFormedLines(init + [last]) && !EndsWithNewline(last) && IsLine(extra)
    ensures ReadLinesOf(WriteLines(init + [last] + [extra])) == init + [last + extra]
  {
    GlueWrites(init, last, extra);
    GlueWellFormed(init, last, extra);
    ReadWriteLines(init + [last + extra]);
  }
}
