/** The string primitives of the .NET base library and of JavaScript that the
    modelled code relies on. Comparisons are ordinal and case mapping covers
    the ASCII letters only: the culture-sensitive `ToLower`, `StartsWith` and
    `EndsWith` of .NET are simplified to that. The path functions come in
    two forms: the checked ones throw on the characters the .NET Framework
    refuses in a path, and the unchecked ones compute the name. */
module Text {
  import opened Wrappers
  import Runtime

  // ---------------------------------------------------------------------------
  // Prefixes, suffixes, substrings
  // ---------------------------------------------------------------------------

  predicate StartsWith(s: string, prefix: string) {
    |prefix| <= |s| && s[..|prefix|] == prefix
  }

  predicate EndsWith(s: string, suffix: string) {
    |suffix| <= |s| && s[|s| - |suffix|..] == suffix
  }

  /** `s.Contains(sub)`: `sub` occurs somewhere in `s` (the empty string occurs everywhere). */
  predicate Contains(s: string, sub: string)
    decreases |s|
  {
    StartsWith(s, sub) || (|s| > 0 && Contains(s[1..], sub))
  }

  /** The index of the first occurrence of `c`, or None (`IndexOf` returning -1). */
  function IndexOf(s: string, c: char): (r: Option<nat>)
    ensures r.None? <==> c !in s
    ensures r.Some? ==> r.value < |s| && s[r.value] == c && c !in s[..r.value]
  {
    if |s| == 0 then None
    else if s[0] == c then Some(0)
    else match IndexOf(s[1..], c)
      case None => None
      case Some(i) =>
        assert s[1..][..i] == s[1..i + 1];
        assert s[..i + 1] == [s[0]] + s[1..i + 1];
        Some(i + 1)
  }

  /** The part of `s` before the first `c`, or all of `s` when `c` does not occur. */
  function Before(s: string, c: char): (r: string)
    ensures c !in r
    ensures StartsWith(s, r)
    ensures r == s || (|r| < |s| && s[|r|] == c)
  {
    match IndexOf(s, c)
    case None => s
    case Some(i) => s[..i]
  }

  // ---------------------------------------------------------------------------
  // String.Split(char) and the matching join
  // ---------------------------------------------------------------------------

  /** `s.Split(c)`: every piece between separators, empty pieces included, so the
      result is never empty (`"".Split(c)` is `[""]`). */
  function Split(s: string, c: char): (r: seq<string>)
    ensures |r| >= 1
    decreases |s|
  {
    if |s| == 0 then [""]
    else if s[0] == c then [""] + Split(s[1..], c)
    else
      var rest := Split(s[1..], c);
      [[s[0]] + rest[0]] + rest[1..]
  }

  /** The pieces glued together with `c` between consecutive pieces. */
  function Join(pieces: seq<string>, c: char): string
    decreases |pieces|
  {
    if |pieces| == 0 then ""
    else if |pieces| == 1 then pieces[0]
    else pieces[0] + [c] + Join(pieces[1..], c)
  }

  predicate NoneContain(pieces: seq<string>, c: char) {
    forall i :: 0 <= i < |pieces| ==> c !in pieces[i]
  }

  /** Splitting a string without separator gives the string back. */
  lemma {:induction false} SplitNoSeparator(s: string, c: char)
    requires c !in s
    ensures Split(s, c) == [s]
    decreases |s|
  {
    if |s| > 0 {
      SplitNoSeparator(s[1..], c);
      assert [s[0]] + s[1..] == s;
    }
  }

  /** Splitting `a + [c] + b` where `a` has no `c`: the first piece is `a`, the rest
      is the split of `b`. */
  lemma {:induction false} SplitAtFirst(a: string, b: string, c: char)
    requires c !in a
    ensures Split(a + [c] + b, c) == [a] + Split(b, c)
    decreases |a|
  {
    var s := a + [c] + b;
    if |a| == 0 {
      assert s[0] == c;
      assert s[1..] == b;
    } else {
      assert s[0] == a[0];
      assert s[1..] == a[1..] + [c] + b;
      SplitAtFirst(a[1..], b, c);
      assert [a[0]] + a[1..] == a;
    }
  }

  /** The join/split round trip: splitting a join gives back the pieces whenever
      there is at least one piece and no piece contains the separator. */
  lemma {:induction false} SplitJoin(pieces: seq<string>, c: char)
    requires |pieces| >= 1
    requires NoneContain(pieces, c)
    ensures Split(Join(pieces, c), c) == pieces
    decreases |pieces|
  {
    if |pieces| == 1 {
      SplitNoSeparator(pieces[0], c);
    } else {
      SplitJoin(pieces[1..], c);
      SplitAtFirst(pieces[0], Join(pieces[1..], c), c);
      assert [pieces[0]] + pieces[1..] == pieces;
    }
  }

  /** The split/join round trip the other way: joining the pieces of any
      split with its separator restores the text. */
  lemma {:induction false} JoinSplit(s: string, c: char)
    ensures Join(Split(s, c), c) == s
    decreases |s|
  {
    if |s| > 0 {
      JoinSplit(s[1..], c);
      var rest := Split(s[1..], c);
      if s[0] == c {
        assert ([""] + rest)[1..] == rest;
      } else {
        var r := [[s[0]] + rest[0]] + rest[1..];
        assert r[1..] == rest[1..];
        if |rest| > 1 {
          assert Join(rest, c) == rest[0] + [c] + Join(rest[1..], c);
        }
      }
      assert [s[0]] + s[1..] == s;
    }
  }

  /** The first piece of a split is the text before the first separator. */
  lemma {:induction false} SplitHeadIsBefore(s: string, c: char)
    ensures Split(s, c)[0] == Before(s, c)
    decreases |s|
  {
    if |s| > 0 && s[0] != c {
      SplitHeadIsBefore(s[1..], c);
      match IndexOf(s[1..], c)
      case None =>
        assert [s[0]] + s[1..] == s;
      case Some(i) =>
        assert [s[0]] + s[1..][..i] == s[..i + 1];
    }
  }

  // ---------------------------------------------------------------------------
  // ASCII case mapping
  // ---------------------------------------------------------------------------

  function LowerChar(ch: char): char {
    if 'A' <= ch <= 'Z' then (ch as int + 32) as char else ch
  }

  predicate IsUpper(ch: char) {
    'A' <= ch <= 'Z'
  }

  /** `s.ToLower()` restricted to ASCII letters: the same text ignoring case,
      with no capital left. */
  function ToLower(s: string): (r: string)
    ensures |r| == |s|
    ensures forall i :: 0 <= i < |r| ==> !IsUpper(r[i])
    ensures forall i :: 0 <= i < |s| ==> LowerChar(r[i]) == LowerChar(s[i])
    ensures forall i :: 0 <= i < |s| && !IsUpper(s[i]) ==> r[i] == s[i]
  {
    seq(|s|, i requires 0 <= i < |s| => LowerChar(s[i]))
  }

  /** Lowering twice is lowering once, and text without capitals is its own
      lower case. */
  lemma {:induction false} LowerIdempotent(s: string)
    ensures ToLower(ToLower(s)) == ToLower(s)
    ensures (forall i :: 0 <= i < |s| ==> !IsUpper(s[i])) ==> ToLower(s) == s
  {
    var l := ToLower(s);
    forall i | 0 <= i < |s| ensures ToLower(l)[i] == l[i] {
      assert !IsUpper(l[i]);
    }
  }

  /** Two texts lower to the same text exactly when they agree letter by
      letter ignoring case. */
  lemma LowerEqualIffSameIgnoringCase(s: string, t: string)
    ensures ToLower(s) == ToLower(t) <==>
      |s| == |t| && forall i :: 0 <= i < |s| ==> LowerChar(s[i]) == LowerChar(t[i])
  {
    if |s| == |t| && forall i :: 0 <= i < |s| ==> LowerChar(s[i]) == LowerChar(t[i]) {
      forall i | 0 <= i < |s| ensures ToLower(s)[i] == ToLower(t)[i] {
        assert LowerChar(ToLower(s)[i]) == ToLower(s)[i];
      }
    }
    if ToLower(s) == ToLower(t) {
      forall i | 0 <= i < |s| ensures LowerChar(s[i]) == LowerChar(t[i]) {
        assert LowerChar(ToLower(s)[i]) == LowerChar(s[i]);
      }
    }
  }

  // ---------------------------------------------------------------------------
  // System.IO.Path
  // ---------------------------------------------------------------------------

  predicate IsPathSeparator(ch: char) {
    ch == '/' || ch == '\\' || ch == ':'
  }

  function ExtensionScan(s: string, i: nat): (r: string)
    requires i <= |s|
    ensures r == "" || (|r| >= 2 && r[0] == '.' && EndsWith(s, r))
    decreases i
  {
    if i == 0 then ""
    else if s[i - 1] == '.' then (if i == |s| then "" else s[i - 1..])
    else if IsPathSeparator(s[i - 1]) then ""
    else ExtensionScan(s, i - 1)
  }

  /** `Path.GetExtension`: from the last '.' of the last path segment to the end,
      or "" when that segment has no '.' or ends with it. */
  function Extension(path: string): (r: string)
    ensures r == "" || (|r| >= 2 && r[0] == '.' && EndsWith(path, r))
  {
    ExtensionScan(path, |path|)
  }

  /** `Path.GetFileName`: the text after the last directory or volume separator. */
  function FileName(path: string): (r: string)
    ensures EndsWith(path, r)
    ensures forall k :: 0 <= k < |r| ==> !IsPathSeparator(r[k])
  {
    var i := LastSeparator(path, |path|);
    assert forall k :: 0 <= k < |path[i..]| ==> path[i..][k] == path[i + k];
    path[i..]
  }

  /** A name without separators is its own file name. */
  lemma FileNameOfPlainName(name: string)
    requires forall k :: 0 <= k < |name| ==> !IsPathSeparator(name[k])
    ensures FileName(name) == name
  {
    assert LastSeparator(name, |name|) == 0;
  }

  /** One past the position of the last separator in `s[..i]`, or 0 when there is none. */
  function LastSeparator(s: string, i: nat): (r: nat)
    requires i <= |s|
    ensures r <= i
    ensures r > 0 ==> IsPathSeparator(s[r - 1])
    ensures forall k :: r <= k < i ==> !IsPathSeparator(s[k])
    decreases i
  {
    if i == 0 then 0
    else if IsPathSeparator(s[i - 1]) then i
    else LastSeparator(s, i - 1)
  }

  /** `Path.GetFileNameWithoutExtension`: the file name cut at its last '.'. */
  function FileNameWithoutExtension(path: string): (r: string)
    ensures var name := FileName(path);
      |r| <= |name| && r == name[..|r|] &&
      (|r| < |name| ==> name[|r|] == '.' && forall k :: |r| < k < |name| ==> name[k] != '.') &&
      (|r| == |name| ==> forall k :: 0 <= k < |name| ==> name[k] != '.')
  {
    var name := FileName(path);
    var d := LastDot(name, |name|);
    if d == 0 then name else name[..d - 1]
  }

  /** A character `Path.GetInvalidPathChars` lists in the .NET Framework:
      '"', '<', '>', '|' and the control characters below U+0020. */
  predicate IsInvalidPathChar(ch: char) {
    ch == '"' || ch == '<' || ch == '>' || ch == '|' || ch < ' '
  }

  predicate HasInvalidPathChars(path: string) {
    exists i :: 0 <= i < |path| && IsInvalidPathChar(path[i])
  }

  /** `Path.GetFileName` as called: an `ArgumentException` for an invalid
      character anywhere in the path, the file name otherwise. */
  function GetFileName(path: string): (r: Result<string>)
    ensures r.Ok? <==> !HasInvalidPathChars(path)
    ensures r.Err? ==> r.msg == Runtime.IllegalPathChars
    ensures r.Ok? ==> r.value == FileName(path)
  {
    if HasInvalidPathChars(path) then Err(Runtime.IllegalPathChars) else Ok(FileName(path))
  }

  /** `Path.GetFileNameWithoutExtension` as called: the same check first. */
  function GetFileNameWithoutExtension(path: string): (r: Result<string>)
    ensures r.Ok? <==> !HasInvalidPathChars(path)
    ensures r.Err? ==> r.msg == Runtime.IllegalPathChars
    ensures r.Ok? ==> r.value == FileNameWithoutExtension(path)
  {
    if HasInvalidPathChars(path) then Err(Runtime.IllegalPathChars) else Ok(FileNameWithoutExtension(path))
  }

  /** A file name `GetFileName` returned passes it again unchanged: the
      names an upload stores never make a later `Path` call throw. */
  lemma {:induction false} GetFileNameIdempotent(path: string)
    requires GetFileName(path).Ok?
    ensures GetFileName(GetFileName(path).value) == GetFileName(path)
  {
    var name := FileName(path);
    var i := |path| - |name|;
    assert forall k :: 0 <= k < |name| ==> name[k] == path[i + k];
    FileNameOfPlainName(name);
  }

  /** One past the position of the last '.' in `s[..i]`, or 0 when there is none. */
  function LastDot(s: string, i: nat): (r: nat)
    requires i <= |s|
    ensures r <= i
    ensures r > 0 ==> s[r - 1] == '.'
    ensures forall k :: r <= k < i ==> s[k] != '.'
    decreases i
  {
    if i == 0 then 0
    else if s[i - 1] == '.' then i
    else LastDot(s, i - 1)
  }

  // ---------------------------------------------------------------------------
  // Decimal rendering and parsing of naturals
  // ---------------------------------------------------------------------------

  predicate IsDigit(ch: char) {
    '0' <= ch <= '9'
  }

  predicate AllDigits(s: string) {
    forall i :: 0 <= i < |s| ==> IsDigit(s[i])
  }

  function DigitChar(d: nat): (ch: char)
    requires d < 10
    ensures IsDigit(ch)
  {
    ('0' as int + d) as char
  }

  function DigitValue(ch: char): nat
    requires IsDigit(ch)
  {
    ch as int - '0' as int
  }

  /** The decimal rendering of `n`, without sign or leading zeros. */
  function NatToString(n: nat): (r: string)
    ensures |r| >= 1 && AllDigits(r)
    decreases n
  {
    if n < 10 then [DigitChar(n)] else NatToString(n / 10) + [DigitChar(n % 10)]
  }

  /** The value of a digit string read left to right, starting from `acc`. */
  function ValueFrom(s: string, acc: nat): nat
    requires AllDigits(s)
    decreases |s|
  {
    if |s| == 0 then acc else ValueFrom(s[1..], acc * 10 + DigitValue(s[0]))
  }

  /** Parses a non-empty run of decimal digits; anything else is rejected. */
  function ParseNat(s: string): Option<nat> {
    if |s| > 0 && AllDigits(s) then Some(ValueFrom(s, 0)) else None
  }

  lemma {:induction false} ValueFromAppend(s: string, ch: char, acc: nat)
    requires AllDigits(s) && IsDigit(ch)
    ensures AllDigits(s + [ch])
    ensures ValueFrom(s + [ch], acc) == ValueFrom(s, acc) * 10 + DigitValue(ch)
    decreases |s|
  {
    if |s| > 0 {
      assert (s + [ch])[1..] == s[1..] + [ch];
      ValueFromAppend(s[1..], ch, acc * 10 + DigitValue(s[0]));
    }
  }

  /** Rendering then parsing a natural gives it back. */
  lemma {:induction false} ParseNatToString(n: nat)
    ensures ParseNat(NatToString(n)) == Some(n)
    ensures ValueFrom(NatToString(n), 0) == n
    decreases n
  {
    if n >= 10 {
      ParseNatToString(n / 10);
      ValueFromAppend(NatToString(n / 10), DigitChar(n % 10), 0);
    } else {
      assert NatToString(n)[1..] == [];
      assert ValueFrom(NatToString(n), 0) == ValueFrom([], DigitValue(DigitChar(n)));
    }
  }

  /** A string of `k` zero digits. */
  function Zeros(k: nat): (r: string)
    ensures |r| == k && AllDigits(r)
    ensures forall i :: 0 <= i < k ==> r[i] == '0'
  {
    seq(k, i => '0')
  }

  /** Leading zeros do not change the value of a digit string. */
  lemma {:induction false} ValueFromLeadingZeros(k: nat, s: string)
    requires AllDigits(s)
    ensures AllDigits(Zeros(k) + s)
    ensures ValueFrom(Zeros(k) + s, 0) == ValueFrom(s, 0)
    decreases k
  {
    if k > 0 {
      var z := Zeros(k) + s;
      assert z[0] == '0';
      assert z[1..] == Zeros(k - 1) + s;
      ValueFromLeadingZeros(k - 1, s);
      assert DigitValue(z[0]) == 0;
      assert ValueFrom(z, 0) == ValueFrom(z[1..], 0 * 10 + DigitValue(z[0]));
    } else {
      assert Zeros(k) + s == s;
    }
  }

  /** The .NET format `{0:D<width>}` for a non-negative value: the decimal digits,
      left-padded with zeros to at least `width` characters. */
  function PadDigits(n: nat, width: nat): (r: string)
    ensures AllDigits(r)
    ensures |r| >= width && |r| >= 1
  {
    var d := NatToString(n);
    if |d| >= width then d else Zeros(width - |d|) + d
  }

  /** Zero-padding keeps the value, so distinct values give distinct padded strings. */
  lemma PadDigitsValue(n: nat, width: nat)
    ensures ValueFrom(PadDigits(n, width), 0) == n
  {
    var d := NatToString(n);
    ParseNatToString(n);
    if |d| < width {
      ValueFromLeadingZeros(width - |d|, d);
    }
  }

  lemma PadDigitsInjective(m: nat, n: nat, width: nat)
    requires PadDigits(m, width) == PadDigits(n, width)
    ensures m == n
  {
    PadDigitsValue(m, width);
    PadDigitsValue(n, width);
  }
}
