/** The backend's slug for a product name: lower-case, spaces and slashes to hyphens, then
    every "__" to a hyphen, as Python's `str.replace` does it (left to right, without
    overlaps). */
module ServerSlug {
  import opened Text

  /** `s.replace(c, '-')` for one character. */
  function ReplaceChar(s: string, c: char): (r: string)
    ensures |r| == |s|
    ensures forall k :: 0 <= k < |s| ==> r[k] == (if s[k] == c then '-' else s[k])
  {
    seq(|s|, k requires 0 <= k < |s| => if s[k] == c then '-' else s[k])
  }

  predicate HasDoubleUnderscore(s: string) {
    exists k :: 0 <= k < |s| - 1 && s[k] == '_' && s[k + 1] == '_'
  }

  /** `s.replace("__", "-")`: scanning left to right, each "__" becomes "-" and the scan
      resumes after it, so "___" gives "-_". */
  function ReplaceDoubleUnderscore(s: string): (r: string)
    ensures |r| <= |s|
    ensures forall c :: c in r ==> c in s || c == '-'
    ensures !HasDoubleUnderscore(r)
    ensures |r| > 0 && |s| > 0 ==> (r[0] == '_' <==> s[0] == '_' && (|s| == 1 || s[1] != '_'))
    decreases |s|
  {
    if |s| >= 2 && s[0] == '_' && s[1] == '_' then
      var rest := ReplaceDoubleUnderscore(s[2..]);
      assert forall k :: 0 <= k < |rest| - 1 ==> ("-" + rest)[k + 1] == rest[k];
      "-" + rest
    else if |s| == 0 then ""
    else
      var rest := ReplaceDoubleUnderscore(s[1..]);
      assert forall k :: 0 <= k < |rest| - 1 ==> ([s[0]] + rest)[k + 1] == rest[k];
      [s[0]] + rest
  }

  /** A string without "__" is left alone. */
  lemma {:induction false} ReplaceDoubleUnderscoreNone(s: string)
    requires !HasDoubleUnderscore(s)
    ensures ReplaceDoubleUnderscore(s) == s
    decreases |s|
  {
    if |s| > 0 {
      assert !HasDoubleUnderscore(s[1..]) by {
        forall k | 0 <= k < |s[1..]| - 1 ensures !(s[1..][k] == '_' && s[1..][k + 1] == '_') {
          assert s[1..][k] == s[k + 1] && s[1..][k + 1] == s[k + 2];
        }
      }
      ReplaceDoubleUnderscoreNone(s[1..]);
    }
  }

  /** The replacement scans left to right: text up to the first "__" is copied, that "__"
      becomes one hyphen, and the scan goes on after it. */
  lemma {:induction false} ReplaceDoubleUnderscoreStep(a: string, b: string)
    requires !HasDoubleUnderscore(a)
    requires a == [] || a[|a| - 1] != '_'
    ensures ReplaceDoubleUnderscore(a + "__" + b) == a + "-" + ReplaceDoubleUnderscore(b)
    decreases |a|
  {
    var s := a + "__" + b;
    if |a| == 0 {
      assert s == "__" + b;
      assert s[2..] == b;
    } else {
      assert s[0] == a[0];
      assert |a| == 1 ==> s[1] == '_';
      assert |a| >= 2 ==> s[1] == a[1];
      assert !(a[0] == '_' && |a| >= 2 && a[1] == '_');
      assert s[1..] == a[1..] + "__" + b;
      assert !HasDoubleUnderscore(a[1..]) by {
        forall k | 0 <= k < |a[1..]| - 1 ensures !(a[1..][k] == '_' && a[1..][k + 1] == '_') {
          assert a[1..][k] == a[k + 1] && a[1..][k + 1] == a[k + 2];
        }
      }
      assert a[1..] == [] || a[1..][|a[1..]| - 1] == a[|a| - 1];
      ReplaceDoubleUnderscoreStep(a[1..], b);
      assert a == [a[0]] + a[1..];
    }
  }

  /** The character `_slugify` puts at each position before "__" is rewritten: lower case,
      with a space or a slash turned into a hyphen. */
  function SlugChar(c: char): char {
    if c == ' ' || c == '/' then '-' else LowerChar(c)
  }

  /** `_slugify`: lower-case, a hyphen for each space and each slash, then each "__" (left to
      right) becomes a hyphen. A name without "__" keeps its length, character by
      character. */
  function Slugify(name: string): (r: string)
    ensures ' ' !in r && '/' !in r
    ensures !HasDoubleUnderscore(r)
    ensures forall c :: c in r ==> !IsUpper(c)
    ensures |r| <= |name|
    ensures !HasDoubleUnderscore(name) ==>
      |r| == |name| && forall k :: 0 <= k < |name| ==> r[k] == SlugChar(name[k])
  {
    var lowered := ToLower(name);
    var spaced := ReplaceChar(lowered, ' ');
    var slashed := ReplaceChar(spaced, '/');
    assert forall k :: 0 <= k < |name| ==> slashed[k] == SlugChar(name[k]) by {
      forall k | 0 <= k < |name| ensures slashed[k] == SlugChar(name[k]) {
        assert spaced[k] == (if lowered[k] == ' ' then '-' else lowered[k]);
      }
    }
    assert forall c :: c in slashed ==> c != ' ' && c != '/' && !IsUpper(c) by {
      forall c | c in slashed ensures c != ' ' && c != '/' && !IsUpper(c) {
        var k :| 0 <= k < |slashed| && slashed[k] == c;
        assert slashed[k] == SlugChar(name[k]);
      }
    }
    assert !HasDoubleUnderscore(name) ==> ReplaceDoubleUnderscore(slashed) == slashed by {
      if !HasDoubleUnderscore(name) {
        forall k | 0 <= k < |slashed| - 1 ensures !(slashed[k] == '_' && slashed[k + 1] == '_') {
          assert slashed[k] == SlugChar(name[k]) && slashed[k + 1] == SlugChar(name[k + 1]);
        }
        ReplaceDoubleUnderscoreNone(slashed);
      }
    }
    ReplaceDoubleUnderscore(slashed)
  }

  /** Slugifying a slug changes nothing. */
  lemma SlugifyIdempotent(name: string)
    ensures Slugify(Slugify(name)) == Slugify(name)
  {
    var s := Slugify(name);
    var lowered := ToLower(s);
    assert lowered == s by {
      forall k | 0 <= k < |s| ensures lowered[k] == s[k] {
        assert s[k] in s;
      }
    }
    var spaced := ReplaceChar(lowered, ' ');
    assert spaced == s by {
      forall k | 0 <= k < |s| ensures spaced[k] == s[k] {
        assert s[k] in s;
      }
    }
    var slashed := ReplaceChar(spaced, '/');
    assert slashed == s by {
      forall k | 0 <= k < |s| ensures slashed[k] == s[k] {
        assert s[k] in s;
      }
    }
    ReplaceDoubleUnderscoreNone(s);
  }
}
