/** The Python string operations the `.non` reader relies on, written out as
    total functions: `str.rstrip(ch)`, `str.split(sep)`, `str.split(sep, 1)`,
    `str.join`, and `int()` on a base-10 string. */
module PyStr {
  import opened Wrappers
  import opened Decimal

  /** `s.rstrip(ch)`: drops every trailing `ch`. */
  function RStrip(s: string, ch: char): (r: string)
    ensures r <= s
    ensures |r| == 0 || r[|r| - 1] != ch
    ensures forall i :: |r| <= i < |s| ==> s[i] == ch
  {
    if |s| > 0 && s[|s| - 1] == ch then RStrip(s[..|s| - 1], ch) else s
  }

  /** Stripping one `ch` added to a text that does not end in `ch` gives
      the text back. */
  lemma RStripOne(s: string, ch: char)
    requires |s| == 0 || s[|s| - 1] != ch
    ensures RStrip(s + [ch], ch) == s
  {
    assert (s + [ch])[..|s|] == s;
  }

  /** Index of the first `ch` in `s`. */
  function IndexOf(s: string, ch: char): (i: nat)
    requires ch in s
    ensures i < |s| && s[i] == ch && ch !in s[..i]
  {
    if s[0] == ch then 0 else
      assert ch in s[1..] by { var k :| 0 <= k < |s| && s[k] == ch; assert s[1..][k - 1] == ch; }
      var j := IndexOf(s[1..], ch);
      assert s[..j + 1] == [s[0]] + s[1..][..j];
      1 + j
  }

  /** `sep.join(parts)`. */
  function Join(parts: seq<string>, sep: char): string
  {
    if |parts| == 0 then ""
    else if |parts| == 1 then parts[0]
    else parts[0] + [sep] + Join(parts[1..], sep)
  }

  /** `s.split(sep)` for a one-character separator: the pieces between the
      separators, never an empty list. */
  function Split(s: string, sep: char): (parts: seq<string>)
    ensures |parts| > 0
    ensures forall k :: 0 <= k < |parts| ==> sep !in parts[k]
    ensures Join(parts, sep) == s
    decreases |s|
  {
    if sep !in s then [s]
    else
      var i := IndexOf(s, sep);
      var tail := Split(s[i + 1..], sep);
      assert s == s[..i] + [sep] + s[i + 1..];
      [s[..i]] + tail
  }

  /** Splitting what `Join` glued back together recovers the pieces, as long
      as no piece holds the separator. */
  lemma {:induction false} SplitJoin(parts: seq<string>, sep: char)
    requires |parts| > 0
    requires forall k :: 0 <= k < |parts| ==> sep !in parts[k]
    ensures Split(Join(parts, sep), sep) == parts
    decreases |parts|
  {
    if |parts| > 1 {
      var s := Join(parts, sep);
      var rest := Join(parts[1..], sep);
      assert s == parts[0] + [sep] + rest;
      assert s[|parts[0]|] == sep;
      assert s[..|parts[0]|] == parts[0];
      var i := IndexOf(s, sep);
      assert i == |parts[0]|;
      assert s[i + 1..] == rest;
      SplitJoin(parts[1..], sep);
    }
  }

  /** `k, v = s.split(sep, 1)`: `None` when there is no separator (the
      unpacking raises `ValueError`), otherwise the text before the first
      separator and everything after it. */
  function SplitOnce(s: string, sep: char): (r: Option<(string, string)>)
    ensures r.None? <==> sep !in s
    ensures r.Some? ==> s == r.value.0 + [sep] + r.value.1 && sep !in r.value.0
  {
    if sep !in s then None
    else
      var i := IndexOf(s, sep);
      assert s == s[..i] + [sep] + s[i + 1..];
      Some((s[..i], s[i + 1..]))
  }

  /** The white space `int()` skips around its digits: the space and
      `\t\n\v\f\r` among ASCII characters (the ASCII separators U+001C to
      U+001F are not skipped), and the non-ASCII characters `str.isspace()`
      accepts, which `int()` first turns into spaces. */
  predicate IntSpace(ch: char) {
    || ch == ' '
    || 0x09 <= ch as int <= 0x0D
    || ch as int == 0x85 || ch as int == 0xA0 || ch as int == 0x1680
    || 0x2000 <= ch as int <= 0x200A
    || ch as int == 0x2028 || ch as int == 0x2029 || ch as int == 0x202F
    || ch as int == 0x205F || ch as int == 0x3000
  }

  /** The first index from `i` on that does not hold white space, or `|s|`. */
  function SpaceEnd(s: string, i: nat): (k: nat)
    requires i <= |s|
    ensures i <= k <= |s| && (k == |s| || !IntSpace(s[k]))
    ensures forall m :: i <= m < k ==> IntSpace(s[m])
    decreases |s| - i
  {
    if i < |s| && IntSpace(s[i]) then SpaceEnd(s, i + 1) else i
  }

  /** The start of the run of white space that ends at `j`. */
  function SpaceStart(s: string, j: nat): (k: nat)
    requires j <= |s|
    ensures k <= j && (k == 0 || !IntSpace(s[k - 1]))
    ensures forall m :: k <= m < j ==> IntSpace(s[m])
  {
    if j > 0 && IntSpace(s[j - 1]) then SpaceStart(s, j - 1) else j
  }

  /** `r` is `s` from index `i` on with only white space removed around it. */
  predicate StrippedAt(s: string, r: string, i: nat) {
    && i + |r| <= |s| && r == s[i..i + |r|]
    && (forall m :: 0 <= m < i ==> IntSpace(s[m]))
    && (forall m :: i + |r| <= m < |s| ==> IntSpace(s[m]))
  }

  /** The stripping `int()` does: drops leading and trailing `IntSpace`
      characters. */
  function Strip(s: string): (r: string)
    ensures |r| == 0 || (!IntSpace(r[0]) && !IntSpace(r[|r| - 1]))
    ensures exists i :: StrippedAt(s, r, i)
  {
    var i, j := SpaceEnd(s, 0), SpaceStart(s, |s|);
    if j <= i then
      assert StrippedAt(s, "", |s|);
      ""
    else
      assert StrippedAt(s, s[i..j], i);
      s[i..j]
  }

  /** Text `int()` reads once white space is stripped: one or more digits,
      optionally after a single `+` or `-`. */
  predicate IntText(t: string) {
    (|t| > 0 && AllDigits(t)) || (|t| > 1 && (t[0] == '+' || t[0] == '-') && AllDigits(t[1..]))
  }

  /** `int(s)` in base 10: optional white space, an optional sign, one or
      more digits, optional white space; anything else raises `ValueError`,
      here `None`. */
  function PyInt(s: string): (r: Option<int>)
    ensures r.Some? <==> IntText(Strip(s))
    ensures var t := Strip(s); |t| > 0 && AllDigits(t) ==> r == Some(DigitsValue(t) as int)
    ensures var t := Strip(s); |t| > 1 && t[0] == '+' && AllDigits(t[1..]) ==> r == Some(DigitsValue(t[1..]) as int)
    ensures var t := Strip(s); |t| > 1 && t[0] == '-' && AllDigits(t[1..]) ==> r == Some(-(DigitsValue(t[1..]) as int))
  {
    var t := Strip(s);
    if |t| == 0 then None
    else if (t[0] == '+' || t[0] == '-') && |t| > 1 && AllDigits(t[1..]) then
      var v: int := DigitsValue(t[1..]);
      Some(if t[0] == '-' then -v else v)
    else if AllDigits(t) then Some(DigitsValue(t))
    else None
  }

  /** `int()` skips a space and a newline around digits but rejects the
      ASCII file separator U+001C, although `str.isspace()` accepts it. */
  lemma IntSpaceExamples()
    ensures PyInt(" 1\n") == Some(1)
    ensures PyInt([0x1C as char, '1']) == None
  {
    assert SpaceEnd(" 1\n", 0) == 1 && SpaceStart(" 1\n", 3) == 2;
    assert SpaceEnd([0x1C as char, '1'], 0) == 0 && SpaceStart([0x1C as char, '1'], 2) == 2;
  }

  /** `str(k)`: the decimal form of an integer, with a `-` when negative. */
  function FormatInt(k: int): (s: string)
    ensures |s| > 0 && IsDigit(s[|s| - 1])
    ensures k >= 0 <==> IsDigit(s[0])
  {
    if k >= 0 then Show(k) else "-" + Show(-k)
  }

  /** `int(str(k)) == k`. */
  lemma PyIntFormatInt(k: int)
    ensures PyInt(FormatInt(k)) == Some(k)
  {
    var s := FormatInt(k);
    assert Strip(s) == s by {
      StripUnchanged(s);
    }
    if k >= 0 {
      ShowValue(k);
    } else {
      assert s[1..] == Show(-k);
      ShowValue(-k);
    }
  }

  lemma StripUnchanged(s: string)
    requires |s| > 0 && !IntSpace(s[0]) && !IntSpace(s[|s| - 1])
    ensures Strip(s) == s
  {
  }

  /** The first separator after a separator-free prefix is the one right
      after that prefix. */
  lemma {:induction false} IndexOfAfter(a: string, ch: char, b: string)
    requires ch !in a
    ensures IndexOf(a + [ch] + b, ch) == |a|
    decreases |a|
  {
    var s := a + [ch] + b;
    if |a| > 0 {
      assert s[0] == a[0];
      assert s[1..] == a[1..] + [ch] + b;
      IndexOfAfter(a[1..], ch, b);
    }
  }

  /** Splitting once at the separator that follows a separator-free prefix
      gives that prefix and the rest. */
  lemma SplitOnceAfter(a: string, ch: char, b: string)
    requires ch !in a
    ensures SplitOnce(a + [ch] + b, ch) == Some((a, b))
  {
    var s := a + [ch] + b;
    IndexOfAfter(a, ch, b);
    assert s[..|a|] == a && s[|a| + 1..] == b;
  }

  /** The last character of a join is the last character of its last piece. */
  lemma {:induction false} JoinLast(parts: seq<string>, sep: char)
    requires |parts| > 0 && |parts[|parts| - 1]| > 0
    ensures var j := Join(parts, sep); |j| > 0 && j[|j| - 1] == parts[|parts| - 1][|parts[|parts| - 1]| - 1]
    decreases |parts|
  {
    if |parts| > 1 {
      JoinLast(parts[1..], sep);
    }
  }
}
