/** String helpers shared by the storefront and the backend: ASCII case folding,
    white-space trimming, single-character splitting, digit extraction and
    JavaScript's `parseInt`. Strings are `seq<char>`; only ASCII letters are
    case-folded and only ASCII white space is recognised. */
module Text {
  import opened Wrappers

  /** ASCII white space as matched by JavaScript's `\s` and removed by `trim()`. */
  predicate IsSpace(c: char) {
    c == ' ' || c == '\t' || c == '\n' || c == '\r' || c == '\U{0B}' || c == '\U{0C}'
  }

  predicate IsUpper(c: char) {
    'A' <= c <= 'Z'
  }

  function LowerChar(c: char): char {
    if IsUpper(c) then (c as int + 32) as char else c
  }

  /** `toLowerCase()` / Python's `lower()`, restricted to ASCII letters. */
  function ToLower(s: string): (r: string)
    ensures |r| == |s|
    ensures forall i :: 0 <= i < |s| ==> r[i] == LowerChar(s[i])
  {
    seq(|s|, i requires 0 <= i < |s| => LowerChar(s[i]))
  }

  predicate AllSpace(s: string) {
    forall k :: 0 <= k < |s| ==> IsSpace(s[k])
  }

  /** Number of white-space characters at the front of `s`. */
  function LeadingSpaces(s: string): (n: nat)
    ensures n <= |s|
    ensures AllSpace(s[..n])
    ensures n < |s| ==> !IsSpace(s[n])
  {
    if |s| > 0 && IsSpace(s[0]) then 1 + LeadingSpaces(s[1..]) else 0
  }

  /** Index where the white space at the end of `s` begins. */
  function TrailingSpacesStart(s: string): (m: nat)
    ensures m <= |s|
    ensures AllSpace(s[m..])
    ensures m > 0 ==> !IsSpace(s[m - 1])
  {
    if |s| > 0 && IsSpace(s[|s| - 1]) then
      var m := TrailingSpacesStart(s[..|s| - 1]);
      assert s[m..] == s[..|s| - 1][m..] + [s[|s| - 1]];
      assert m > 0 ==> s[m - 1] == s[..|s| - 1][m - 1];
      m
    else |s|
  }

  /** `r` is what is left of `s` once white space is cut from both ends at offset `i`. */
  predicate TrimmedAt(s: string, r: string, i: int) {
    0 <= i && i + |r| <= |s| && s[i..i + |r|] == r && AllSpace(s[..i]) && AllSpace(s[i + |r|..])
  }

  /** JavaScript's `trim()`. */
  function Trim(s: string): (r: string)
    ensures r == [] || (!IsSpace(r[0]) && !IsSpace(r[|r| - 1]))
    ensures exists i :: TrimmedAt(s, r, i)
    ensures r == [] <==> AllSpace(s)
  {
    var i := LeadingSpaces(s);
    var t := s[i..];
    var r := t[..TrailingSpacesStart(t)];
    TrimmedAtLeading(s, i, t, r);
    r
  }

  /** The pieces `Trim` cuts off are white space, and nothing but white space is left
      behind only when the whole string was white space. */
  lemma TrimmedAtLeading(s: string, i: nat, t: string, r: string)
    requires i == LeadingSpaces(s) && t == s[i..] && r == t[..TrailingSpacesStart(t)]
    ensures TrimmedAt(s, r, i)
    ensures r == [] <==> AllSpace(s)
  {
    assert s[i..i + |r|] == r;
    assert s[i + |r|..] == t[TrailingSpacesStart(t)..];
    if r == [] {
      assert s == s[..i] + t;
    } else {
      assert !IsSpace(s[i]);
    }
  }

  /** A string is blank when it is empty after `trim()`: it is falsy in JavaScript. */
  predicate IsBlank(s: string) {
    Trim(s) == []
  }

  /** JavaScript's `s.split(sep)` for a one-character separator: always at least one piece. */
  function Split(s: string, sep: char): (parts: seq<string>)
    ensures |parts| >= 1
    ensures forall k :: 0 <= k < |parts| ==> sep !in parts[k]
    decreases |s|
  {
    if |s| == 0 then [""]
    else
      var rest := Split(s[1..], sep);
      if s[0] == sep then [""] + rest
      else [[s[0]] + rest[0]] + rest[1..]
  }

  /** JavaScript's `parts.join(sep)`. */
  function Join(parts: seq<string>, sep: char): string
  {
    if |parts| == 0 then ""
    else if |parts| == 1 then parts[0]
    else parts[0] + [sep] + Join(parts[1..], sep)
  }

  /** `text` is the pieces `ps`, none holding the separator, joined by it. */
  predicate WrittenAs(text: string, ps: seq<string>, sep: char) {
    Join(ps, sep) == text && forall k :: 0 <= k < |ps| ==> sep !in ps[k]
  }

  /** Splitting and re-joining on the same separator gives back the original string. */
  lemma {:induction false} SplitJoin(s: string, sep: char)
    ensures Join(Split(s, sep), sep) == s
    decreases |s|
  {
    if |s| > 0 {
      var rest := Split(s[1..], sep);
      SplitJoin(s[1..], sep);
      if s[0] == sep {
        assert Split(s, sep) == [""] + rest;
        assert ([""] + rest)[1..] == rest;
      } else {
        var parts := [[s[0]] + rest[0]] + rest[1..];
        assert Split(s, sep) == parts;
        if |rest| == 1 {
          assert s == [s[0]] + s[1..];
        } else {
          assert parts[1..] == rest[1..];
          assert Join(rest, sep) == rest[0] + [sep] + Join(rest[1..], sep);
          assert s == [s[0]] + s[1..];
        }
      }
    }
  }

  /** A string with no white space at either end is its own trim. */
  lemma TrimOfTrimmed(s: string)
    requires s == [] || (!IsSpace(s[0]) && !IsSpace(s[|s| - 1]))
    ensures Trim(s) == s
  {
    var n := LeadingSpaces(s);
    assert n == 0;
    assert s[n..] == s;
    var m := TrailingSpacesStart(s);
    assert m == |s|;
    assert s[..m] == s;
  }

  /** Trimming only removes characters. */
  lemma TrimKeepsOut(s: string, c: char)
    requires c !in s
    ensures c !in Trim(s)
  {
    var r := Trim(s);
    var i :| TrimmedAt(s, r, i);
    forall k | 0 <= k < |r| ensures r[k] != c {
      assert r[k] == s[i..i + |r|][k] == s[i + k];
    }
  }

  lemma {:induction false} SplitWithoutSep(s: string, sep: char)
    requires sep !in s
    ensures Split(s, sep) == [s]
    decreases |s|
  {
    if |s| > 0 {
      SplitWithoutSep(s[1..], sep);
      assert s == [s[0]] + s[1..];
    }
  }

  lemma {:induction false} SplitAfterPiece(a: string, b: string, sep: char)
    requires sep !in a
    ensures Split(a + [sep] + b, sep) == [a] + Split(b, sep)
    decreases |a|
  {
    var s := a + [sep] + b;
    if |a| == 0 {
      assert s == [sep] + b;
      assert s[1..] == b;
    } else {
      SplitAfterPiece(a[1..], b, sep);
      assert s[1..] == a[1..] + [sep] + b;
      assert a == [a[0]] + a[1..];
    }
  }

  /** Joining pieces that do not contain the separator and splitting again gives back the
      pieces. */
  lemma {:induction false} JoinSplit(parts: seq<string>, sep: char)
    requires |parts| >= 1
    requires forall k :: 0 <= k < |parts| ==> sep !in parts[k]
    ensures Split(Join(parts, sep), sep) == parts
    decreases |parts|
  {
    if |parts| == 1 {
      SplitWithoutSep(parts[0], sep);
    } else {
      JoinSplit(parts[1..], sep);
      SplitAfterPiece(parts[0], Join(parts[1..], sep), sep);
      assert parts == [parts[0]] + parts[1..];
    }
  }

  predicate IsDigit(c: char) {
    '0' <= c <= '9'
  }

  predicate AllDigits(s: string) {
    forall k :: 0 <= k < |s| ==> IsDigit(s[k])
  }

  /** `s.replace(/[^0-9]/g, '')`: the digits of `s`, in order. */
  function OnlyDigits(s: string): (r: string)
    ensures AllDigits(r)
    ensures |r| <= |s|
    ensures (exists k :: 0 <= k < |s| && IsDigit(s[k])) <==> |r| > 0
  {
    if |s| == 0 then ""
    else if IsDigit(s[0]) then [s[0]] + OnlyDigits(s[1..])
    else
      assert forall k :: 1 <= k < |s| ==> s[k] == s[1..][k - 1];
      OnlyDigits(s[1..])
  }

  /** Value of character `c` as a digit of the given base (10 or 16), if it is one. */
  function DigitIn(c: char, base: nat): Option<nat>
  {
    if '0' <= c <= '9' then Some(c as int - '0' as int)
    else if base == 16 && 'a' <= c <= 'f' then Some(c as int - 'a' as int + 10)
    else if base == 16 && 'A' <= c <= 'F' then Some(c as int - 'A' as int + 10)
    else None
  }

  /** Length of the longest prefix of `s` made of digits of `base`. */
  function DigitRun(s: string, base: nat): (n: nat)
    ensures n <= |s|
  {
    if |s| > 0 && DigitIn(s[0], base).Some? then 1 + DigitRun(s[1..], base) else 0
  }

  predicate AllDigitsIn(s: string, base: nat) {
    forall k :: 0 <= k < |s| ==> DigitIn(s[k], base).Some?
  }

  /** The number written by the digit string `ds` in `base`, most significant digit first. */
  function RadixValue(ds: string, base: nat): nat
    requires AllDigitsIn(ds, base)
  {
    if |ds| == 0 then 0
    else RadixValue(ds[..|ds| - 1], base) * base + DigitIn(ds[|ds| - 1], base).value
  }

  /** Whether `parseInt` was given radix 10 explicitly or no radix at all. */
  datatype Radix = Decimal | Auto

  /** JavaScript's `parseInt(s, 10)` (Decimal) or `parseInt(s)` (Auto): skip leading white
      space, read an optional sign, with no radix accept a `0x`/`0X` prefix for hexadecimal,
      then read the longest run of digits; `None` stands for NaN (no digits at all). */
  function ParseInt(s: string, radix: Radix): Option<int>
  {
    var t := s[LeadingSpaces(s)..];
    var negative := |t| > 0 && t[0] == '-';
    var u := if |t| > 0 && (t[0] == '-' || t[0] == '+') then t[1..] else t;
    var hex := radix == Auto && |u| >= 2 && u[0] == '0' && (u[1] == 'x' || u[1] == 'X');
    var base := if hex then 16 else 10;
    var w := if hex then u[2..] else u;
    var n := DigitRun(w, base);
    if n == 0 then None
    else
      assert AllDigitsIn(w[..n], base) by { DigitRunDigits(w, base); }
      var m: int := RadixValue(w[..n], base);
      Some(if negative then -m else m)
  }

  lemma DigitRunDigits(s: string, base: nat)
    ensures AllDigitsIn(s[..DigitRun(s, base)], base)
    ensures DigitRun(s, base) < |s| ==> DigitIn(s[DigitRun(s, base)], base).None?
  {
    if |s| > 0 && DigitIn(s[0], base).Some? {
      DigitRunDigits(s[1..], base);
      assert s[..DigitRun(s, base)] == [s[0]] + s[1..][..DigitRun(s[1..], base)];
    }
  }

  /** `parseInt(s) || 0`: NaN (and zero) become 0. */
  function ParseIntOr0(s: string, radix: Radix): int
  {
    match ParseInt(s, radix)
    case Some(v) => v
    case None => 0
  }

  /** The decimal value of a string of decimal digits. */
  function DecimalValue(ds: string): nat
    requires AllDigits(ds)
  {
    assert AllDigitsIn(ds, 10);
    RadixValue(ds, 10)
  }

  lemma DigitRunAllDigits(ds: string)
    requires AllDigits(ds)
    ensures DigitRun(ds, 10) == |ds|
  {
    if |ds| > 0 {
      DigitRunAllDigits(ds[1..]);
    }
  }

  /** On a non-empty string of decimal digits, `parseInt(ds, 10)` (and `parseInt(ds)`)
      is the decimal value of the digits; leading zeros are read as zeros, since only
      "0x" switches the base. */
  lemma ParseIntOfDigits(ds: string, radix: Radix)
    requires AllDigits(ds) && |ds| > 0
    ensures ParseInt(ds, radix) == Some(DecimalValue(ds))
  {
    DigitRunAllDigits(ds);
    assert ds[LeadingSpaces(ds)..] == ds;
    assert ds[..|ds|] == ds;
  }

  function DigitChar(d: nat): char
    requires d < 10
  {
    ('0' as int + d) as char
  }

  /** `String(n)` for a non-negative integer: its decimal representation. */
  function NatToString(n: nat): (s: string)
    ensures |s| > 0 && AllDigits(s)
    ensures |s| >= 2 ==> s[0] != '0'
    decreases n
  {
    if n < 10 then [DigitChar(n)]
    else NatToString(n / 10) + [DigitChar(n % 10)]
  }

  /** The decimal string of a number reads back as that number. */
  lemma {:induction false} NatToStringValue(n: nat)
    ensures DecimalValue(NatToString(n)) == n
    decreases n
  {
    if n >= 10 {
      NatToStringValue(n / 10);
      var s := NatToString(n);
      assert s[..|s| - 1] == NatToString(n / 10);
      assert DigitIn(s[|s| - 1], 10) == Some(n % 10);
      assert AllDigitsIn(s, 10);
      assert RadixValue(s, 10) == RadixValue(NatToString(n / 10), 10) * 10 + n % 10;
    }
  }

  /** `parseInt(String(n))` gives back `n`, with or without an explicit radix. */
  lemma ParseIntOfNatToString(n: nat, radix: Radix)
    ensures ParseInt(NatToString(n), radix) == Some(n)
  {
    NatToStringValue(n);
    ParseIntOfDigits(NatToString(n), radix);
  }

  predicate OccursAt(needle: string, hay: string, i: int) {
    0 <= i && i + |needle| <= |hay| && hay[i..i + |needle|] == needle
  }

  /** JavaScript's `hay.includes(needle)`. */
  predicate Contains(hay: string, needle: string) {
    exists i :: 0 <= i <= |hay| && OccursAt(needle, hay, i)
  }

  /** `s.replace(/\s+/g, '-')`: every maximal run of white space becomes one hyphen. */
  function HyphenateSpaceRuns(s: string): (r: string)
    ensures forall k :: 0 <= k < |r| ==> !IsSpace(r[k])
    ensures |r| <= |s|
    decreases |s|
  {
    if |s| == 0 then ""
    else if IsSpace(s[0]) then "-" + HyphenateSpaceRuns(s[LeadingSpaces(s)..])
    else [s[0]] + HyphenateSpaceRuns(s[1..])
  }

  /** A string without white space is left as it is. */
  lemma {:induction false} HyphenateNoSpace(s: string)
    requires forall k :: 0 <= k < |s| ==> !IsSpace(s[k])
    ensures HyphenateSpaceRuns(s) == s
    decreases |s|
  {
    if |s| > 0 {
      HyphenateNoSpace(s[1..]);
      assert s == [s[0]] + s[1..];
    }
  }

  /** White space at the front of `x + y`: all of `x` and then `y`'s when `x` is all white
      space, otherwise only `x`'s. */
  lemma {:induction false} LeadingSpacesAppend(x: string, y: string)
    ensures AllSpace(x) ==> LeadingSpaces(x + y) == |x| + LeadingSpaces(y)
    ensures !AllSpace(x) ==> LeadingSpaces(x + y) == LeadingSpaces(x)
    decreases |x|
  {
    if |x| > 0 {
      assert (x + y)[0] == x[0];
      assert (x + y)[1..] == x[1..] + y;
      LeadingSpacesAppend(x[1..], y);
      if IsSpace(x[0]) {
        assert AllSpace(x) <==> AllSpace(x[1..]) by {
          assert forall k :: 1 <= k < |x| ==> x[k] == x[1..][k - 1];
        }
      }
    } else {
      assert x + y == y;
    }
  }

  /** A leading run of white space becomes one hyphen in front of the rest. */
  lemma HyphenateLeadingRun(w: string, b: string)
    requires |w| > 0 && AllSpace(w)
    requires b == [] || !IsSpace(b[0])
    ensures HyphenateSpaceRuns(w + b) == "-" + HyphenateSpaceRuns(b)
  {
    LeadingSpacesAppend(w, b);
    assert LeadingSpaces(b) == 0;
    assert (w + b)[0] == w[0];
    assert (w + b)[|w|..] == b;
  }

  /** A run of white space between two parts becomes exactly one hyphen, and the parts are
      hyphenated on their own: with `a` not ending and `b` not starting in white space,
      `a + w + b` gives `a`'s result, "-", then `b`'s. */
  lemma {:induction false} HyphenateSpaceRun(a: string, w: string, b: string)
    requires |w| > 0 && AllSpace(w)
    requires a == [] || !IsSpace(a[|a| - 1])
    requires b == [] || !IsSpace(b[0])
    ensures HyphenateSpaceRuns(a + w + b) == HyphenateSpaceRuns(a) + "-" + HyphenateSpaceRuns(b)
    decreases |a|
  {
    var tail := "-" + HyphenateSpaceRuns(b);
    AppendAssoc(a, w, b);
    AppendAssoc(HyphenateSpaceRuns(a), "-", HyphenateSpaceRuns(b));
    if |a| == 0 {
      assert a + (w + b) == w + b;
      assert HyphenateSpaceRuns(a) == "";
      HyphenateLeadingRun(w, b);
    } else {
      var n := if IsSpace(a[0]) then LeadingSpaces(a) else 1;
      assert 0 < n < |a| + 1 by {
        if IsSpace(a[0]) {
          assert !AllSpace(a);
        }
      }
      assert a[n..] == [] || a[n..][|a[n..]| - 1] == a[|a| - 1];
      HyphenateSpaceRun(a[n..], w, b);
      AppendAssoc(a[n..], w, b);
      AppendAssoc(HyphenateSpaceRuns(a[n..]), "-", HyphenateSpaceRuns(b));
      HyphenateFront(a, w + b, tail);
    }
  }

  /** Hyphenating `a + t` handles `a`'s first character (or its leading white space) just as
      hyphenating `a` does, so an equation about what follows carries over. */
  lemma HyphenateFront(a: string, t: string, tail: string)
    requires |a| > 0 && !IsSpace(a[|a| - 1])
    requires var n := if IsSpace(a[0]) then LeadingSpaces(a) else 1;
      n <= |a| && HyphenateSpaceRuns(a[n..] + t) == HyphenateSpaceRuns(a[n..]) + tail
    ensures HyphenateSpaceRuns(a + t) == HyphenateSpaceRuns(a) + tail
  {
    if IsSpace(a[0]) {
      var n := HyphenateSpaceStart(a, t);
      HyphenateStep(a, t, n, "-", tail);
    } else {
      HyphenateKeepsHead(a);
      assert (a + t)[0] == a[0];
      HyphenateKeepsHead(a + t);
      HyphenateStep(a, t, 1, [a[0]], tail);
    }
  }

  lemma AppendAssoc(x: string, y: string, z: string)
    ensures x + y + z == x + (y + z)
  {
  }

  /** A character other than white space is copied to the front of the result. */
  lemma HyphenateKeepsHead(s: string)
    requires |s| > 0 && !IsSpace(s[0])
    ensures HyphenateSpaceRuns(s) == [s[0]] + HyphenateSpaceRuns(s[1..])
  {
  }

  /** One unfolding step taken on `a` and on `a + t` alike: if both begin with `h` followed
      by the hyphenation of what comes after position `n`, an equation about the shorter
      string `a[n..] + t` carries over to `a + t`. */
  lemma HyphenateStep(a: string, t: string, n: nat, h: string, tail: string)
    requires 0 < n <= |a|
    requires HyphenateSpaceRuns(a) == h + HyphenateSpaceRuns(a[n..])
    requires HyphenateSpaceRuns(a + t) == h + HyphenateSpaceRuns((a + t)[n..])
    requires HyphenateSpaceRuns(a[n..] + t) == HyphenateSpaceRuns(a[n..]) + tail
    ensures HyphenateSpaceRuns(a + t) == HyphenateSpaceRuns(a) + tail
  {
    assert (a + t)[n..] == a[n..] + t;
    AppendAssoc(h, HyphenateSpaceRuns(a[n..]), tail);
  }

  /** When `a` starts with white space but does not end with it, its leading run is also the
      leading run of `a + t`, and it ends inside `a`. */
  lemma HyphenateSpaceStart(a: string, t: string) returns (n: nat)
    requires |a| > 0 && IsSpace(a[0]) && !IsSpace(a[|a| - 1])
    ensures 0 < n < |a| && n == LeadingSpaces(a) && n == LeadingSpaces(a + t)
    ensures HyphenateSpaceRuns(a) == "-" + HyphenateSpaceRuns(a[n..])
    ensures HyphenateSpaceRuns(a + t) == "-" + HyphenateSpaceRuns((a + t)[n..])
  {
    assert !AllSpace(a);
    LeadingSpacesAppend(a, t);
    n := LeadingSpaces(a);
    assert (a + t)[0] == a[0];
  }
}
