/** The `java.lang.String` and `Double` operations the CSV reader relies on:
    `trim`, `toUpperCase`, `split(",")` and `Double.parseDouble`. */
module JavaText {
  import opened Wrappers

  // ---------------------------------------------------------------------------
  // String.trim

  /** `trim` treats every character up to U+0020 as space. */
  predicate IsSpace(c: char) {
    c <= ' '
  }

  function TrimStart(s: string): (r: string)
    ensures |r| <= |s| && r == s[|s| - |r|..]
    ensures r != [] ==> !IsSpace(r[0])
    ensures forall k :: 0 <= k < |s| - |r| ==> IsSpace(s[k])
  {
    if s != [] && IsSpace(s[0]) then TrimStart(s[1..]) else s
  }

  function TrimEnd(s: string): (r: string)
    ensures |r| <= |s| && r == s[..|r|]
    ensures r != [] ==> !IsSpace(r[|r| - 1])
    ensures forall k :: |r| <= k < |s| ==> IsSpace(s[k])
  {
    if s != [] && IsSpace(s[|s| - 1]) then TrimEnd(s[..|s| - 1]) else s
  }

  /** `String.trim()`. */
  function Trim(s: string): (r: string)
  {
    TrimEnd(TrimStart(s))
  }

  /** `trim` keeps a contiguous middle part of the string that neither starts
      nor ends with a space, and drops only spaces around it. */
  lemma TrimSpec(s: string)
    ensures exists i, j :: (0 <= i <= j <= |s| && Trim(s) == s[i..j]
                            && (forall k :: 0 <= k < i ==> IsSpace(s[k]))
                            && (forall k :: j <= k < |s| ==> IsSpace(s[k])))
    ensures Trim(s) != [] ==> !IsSpace(Trim(s)[0]) && !IsSpace(Trim(s)[|Trim(s)| - 1])
  {
    var i, j := TrimBounds(s);
    var a := TrimStart(s);
    if Trim(s) != [] {
      assert Trim(s)[0] == a[0];
    }
  }

  /** Where the part `trim` keeps starts and ends. */
  lemma TrimBounds(s: string) returns (i: int, j: int)
    ensures 0 <= i <= j <= |s| && Trim(s) == s[i..j]
    ensures forall k :: 0 <= k < i ==> IsSpace(s[k])
    ensures forall k :: j <= k < |s| ==> IsSpace(s[k])
  {
    var a := TrimStart(s);
    i := |s| - |a|;
    var b := TrimEnd(a);
    j := i + |b|;
    assert b == s[i..j];
    forall k | j <= k < |s|
      ensures IsSpace(s[k])
    {
      assert s[k] == a[k - i];
    }
  }

  /** Trimming twice is trimming once. */
  lemma TrimIdempotent(s: string)
    ensures Trim(Trim(s)) == Trim(s)
  {
    var t := Trim(s);
    TrimSpec(s);
    if t != [] {
      assert TrimStart(t) == t;
      assert TrimEnd(t) == t;
    }
  }

  // ---------------------------------------------------------------------------
  // String.toUpperCase

  function UpperChar(c: char): (u: char)
  {
    if 'a' <= c <= 'z' then (c as int - 32) as char else c
  }

  /** `String.toUpperCase()` on the Latin letters, character by character. */
  function ToUpper(s: string): (r: string)
    ensures |r| == |s|
    ensures forall k :: 0 <= k < |s| ==> r[k] == UpperChar(s[k])
  {
    seq(|s|, k requires 0 <= k < |s| => UpperChar(s[k]))
  }

  /** The upper case of a string has no lower-case Latin letter, and upper-casing
      it again changes nothing. */
  lemma ToUpperIdempotent(s: string)
    ensures forall k :: 0 <= k < |s| ==> !('a' <= ToUpper(s)[k] <= 'z')
    ensures ToUpper(ToUpper(s)) == ToUpper(s)
  {
  }

  /** Upper-casing only changes lower-case Latin letters, each into its capital. */
  lemma UpperCharSpec(c: char)
    ensures UpperChar(c) != c <==> 'a' <= c <= 'z'
    ensures 'a' <= c <= 'z' ==> 'A' <= UpperChar(c) <= 'Z' && UpperChar(c) as int == c as int - 32
  {
  }

  // ---------------------------------------------------------------------------
  // String.split(",")

  /** Every field of `s` between separators, empty ones included. */
  function SplitAll(s: string, sep: char): (r: seq<string>)
    ensures |r| >= 1
    ensures forall k :: 0 <= k < |r| ==> sep !in r[k]
    decreases |s|
  {
    if s == [] then [[]]
    else
      var rest := SplitAll(s[1..], sep);
      if s[0] == sep then [[]] + rest
      else [[s[0]] + rest[0]] + rest[1..]
  }

  function Join(parts: seq<string>, sep: char): string
    requires |parts| >= 1
  {
    if |parts| == 1 then parts[0] else parts[0] + [sep] + Join(parts[1..], sep)
  }

  /** Splitting and joining back gives the original string. */
  lemma {:induction false} JoinSplitAll(s: string, sep: char)
    ensures Join(SplitAll(s, sep), sep) == s
    decreases |s|
  {
    if s != [] {
      var rest := SplitAll(s[1..], sep);
      JoinSplitAll(s[1..], sep);
      if s[0] == sep {
        assert SplitAll(s, sep) == [[]] + rest;
        assert ([[]] + rest)[1..] == rest;
      } else {
        JoinPrepend(s[0], rest, sep);
        assert [s[0]] + s[1..] == s;
      }
    }
  }

  /** Prepending a character to the first field prepends it to the join. */
  lemma JoinPrepend(c: char, parts: seq<string>, sep: char)
    requires |parts| >= 1
    ensures Join([[c] + parts[0]] + parts[1..], sep) == [c] + Join(parts, sep)
  {
    var r := [[c] + parts[0]] + parts[1..];
    if |parts| > 1 {
      assert r[1..] == parts[1..];
    }
  }

  /** Splitting a join of separator-free fields gives the fields back. */
  lemma {:induction false} SplitAllJoin(parts: seq<string>, sep: char)
    requires |parts| >= 1
    requires forall k :: 0 <= k < |parts| ==> sep !in parts[k]
    ensures SplitAll(Join(parts, sep), sep) == parts
    decreases |parts|, |parts[0]|
  {
    var p := parts[0];
    if |parts| == 1 {
      if p != [] {
        SplitAllJoin([p[1..]], sep);
        assert p[1..] == Join([p[1..]], sep);
        assert p[0] != sep by { assert p[0] in p; }
        assert [p[0]] + p[1..] == p;
      }
    } else if p == [] {
      var rest := parts[1..];
      SplitAllJoin(rest, sep);
      assert Join(parts, sep) == [sep] + Join(rest, sep);
      assert ([sep] + Join(rest, sep))[1..] == Join(rest, sep);
      assert [[]] + rest == parts;
    } else {
      var parts' := [p[1..]] + parts[1..];
      assert forall k :: 1 <= k < |parts'| ==> parts'[k] == parts[k];
      assert p[0] != sep by { assert p[0] in p; }
      forall k | 0 <= k < |parts'|
        ensures sep !in parts'[k]
      {
        if k == 0 {
          assert forall c :: c in p[1..] ==> c in p;
        }
      }
      SplitAllJoin(parts', sep);
      assert parts'[1..] == parts[1..];
      assert [p[0]] + p[1..] == p;
      assert [[p[0]] + parts'[0]] + parts'[1..] == parts;
      JoinPrepend(p[0], parts', sep);
      SplitAllCons(p[0], Join(parts', sep), sep);
    }
  }

  /** A character other than the separator joins the first field. */
  lemma SplitAllCons(c: char, s: string, sep: char)
    requires c != sep
    ensures SplitAll([c] + s, sep) == [[c] + SplitAll(s, sep)[0]] + SplitAll(s, sep)[1..]
  {
    assert ([c] + s)[1..] == s;
  }

  function DropTrailingEmpty(parts: seq<string>): (r: seq<string>)
    ensures |r| <= |parts| && r == parts[..|r|]
    ensures r != [] ==> r[|r| - 1] != []
    ensures forall k :: |r| <= k < |parts| ==> parts[k] == []
  {
    if parts != [] && parts[|parts| - 1] == [] then DropTrailingEmpty(parts[..|parts| - 1]) else parts
  }

  /** `s.split(",")` with Java's default limit 0: without a separator the
      whole string is the only field; otherwise trailing empty fields are
      removed, leading and inner empty fields stay. */
  function JavaSplit(s: string, sep: char): (r: seq<string>)
  {
    if sep !in s then [s] else DropTrailingEmpty(SplitAll(s, sep))
  }

  /** The fields of `split` are, in order, the fields between separators, up
      to trailing empty ones; only a string without separator keeps an empty
      field at the end. */
  lemma JavaSplitSpec(s: string, sep: char)
    ensures var r := JavaSplit(s, sep);
      && |r| <= |SplitAll(s, sep)|
      && r == SplitAll(s, sep)[..|r|]
      && (forall k :: 0 <= k < |r| ==> sep !in r[k])
      && (sep in s && r != [] ==> r[|r| - 1] != [])
      && (sep !in s ==> r == [s])
  {
    if sep !in s {
      NoSepSplitAll(s, sep);
    }
  }

  /** Joining separator-free fields, the last of them non-empty, and splitting
      the result the Java way gives the fields back. */
  lemma JavaSplitJoin(parts: seq<string>, sep: char)
    requires |parts| >= 2 && parts[|parts| - 1] != []
    requires forall k :: 0 <= k < |parts| ==> sep !in parts[k]
    ensures JavaSplit(Join(parts, sep), sep) == parts
  {
    var s := Join(parts, sep);
    SplitAllJoin(parts, sep);
    assert s == parts[0] + [sep] + Join(parts[1..], sep);
    assert s[|parts[0]|] == sep;
  }

  /** Without a separator there is a single field. */
  lemma {:induction false} NoSepSplitAll(s: string, sep: char)
    requires sep !in s
    ensures SplitAll(s, sep) == [s]
    decreases |s|
  {
    if s != [] {
      assert sep !in s[1..] by {
        assert forall c :: c in s[1..] ==> c in s;
      }
      NoSepSplitAll(s[1..], sep);
      assert [s[0]] + s[1..] == s;
    }
  }

  // ---------------------------------------------------------------------------
  // Double.parseDouble, decimal notation

  predicate IsDigit(c: char) {
    '0' <= c <= '9'
  }

  predicate AllDigits(s: string) {
    forall k :: 0 <= k < |s| ==> IsDigit(s[k])
  }

  function DigitValue(c: char): (d: nat)
    requires IsDigit(c)
    ensures d < 10
  {
    c as int - '0' as int
  }

  function Pow10(n: nat): (p: nat)
    ensures p >= 1
  {
    if n == 0 then 1 else 10 * Pow10(n - 1)
  }

  /** The number a run of decimal digits denotes. */
  function DigitsValue(s: string): (v: nat)
    requires AllDigits(s)
    ensures v < Pow10(|s|)
  {
    if s == [] then 0 else 10 * DigitsValue(s[..|s| - 1]) + DigitValue(s[|s| - 1])
  }

  /** The decimal digits of `n`, most significant first, `width` of them with
      leading zeros. */
  function PadDigits(n: nat, width: nat): (s: string)
    ensures |s| == width && AllDigits(s)
  {
    if width == 0 then [] else PadDigits(n / 10, width - 1) + [('0' as int + n % 10) as char]
  }

  /** Writing a number with enough leading zeros and reading it back gives the number. */
  lemma {:induction false} DigitsValuePad(n: nat, width: nat)
    requires n < Pow10(width)
    ensures DigitsValue(PadDigits(n, width)) == n
  {
    if width > 0 {
      var s := PadDigits(n, width);
      DigitsValuePad(n / 10, width - 1);
      assert s[..|s| - 1] == PadDigits(n / 10, width - 1);
    }
  }

  /** `Double.parseDouble` on plain decimal notation: an optional sign, then
      digits with at most one point and at least one digit. */
  function ParseDecimal(s: string): (r: Option<real>)
    ensures r.Some? ==> s != []
  {
    var neg := s != [] && s[0] == '-';
    var body := if s != [] && (s[0] == '-' || s[0] == '+') then s[1..] else s;
    var dot := PointAt(body);
    var whole := body[..dot];
    var frac := if dot < |body| then body[dot + 1..] else [];
    if AllDigits(whole) && AllDigits(frac) && |whole| + |frac| > 0 then
      var mag := DigitsValue(whole) as real + DigitsValue(frac) as real / Pow10(|frac|) as real;
      Some(if neg then -mag else mag)
    else None
  }

  /** The position of the first '.', or the length when there is none. */
  function PointAt(s: string): (i: nat)
    ensures i <= |s|
    ensures i < |s| ==> s[i] == '.'
    ensures forall k :: 0 <= k < i ==> s[k] != '.'
  {
    if s == [] then 0 else if s[0] == '.' then 0 else 1 + PointAt(s[1..])
  }

  /** A run of digits parses to its integer value, and a sign in front negates it. */
  lemma ParseDecimalInteger(s: string)
    requires s != [] && AllDigits(s)
    ensures ParseDecimal(s) == Some(DigitsValue(s) as real)
    ensures ParseDecimal("-" + s) == Some(-(DigitsValue(s) as real))
  {
    ParseDigits(s);
    ParseMinusDigits(s);
  }

  lemma ParseDigits(s: string)
    requires s != [] && AllDigits(s)
    ensures ParseDecimal(s) == Some(DigitsValue(s) as real)
  {
    PointAbsent(s);
    assert s[..|s|] == s;
    assert DigitsValue([]) as real / Pow10(0) as real == 0.0;
  }

  lemma ParseMinusDigits(s: string)
    requires s != [] && AllDigits(s)
    ensures ParseDecimal("-" + s) == Some(-(DigitsValue(s) as real))
  {
    PointAbsent(s);
    assert s[..|s|] == s;
    assert DigitsValue([]) as real / Pow10(0) as real == 0.0;
    var m := "-" + s;
    assert m[1..] == s;
  }

  lemma PointAbsent(s: string)
    requires AllDigits(s)
    ensures PointAt(s) == |s|
  {
    if PointAt(s) < |s| {
      assert s[PointAt(s)] == '.';
    }
  }

  /** A text without any digit is rejected. */
  lemma ParseDecimalNeedsDigit(s: string)
    requires forall k :: 0 <= k < |s| ==> !IsDigit(s[k])
    ensures ParseDecimal(s) == None
  {
    var body := if s != [] && (s[0] == '-' || s[0] == '+') then s[1..] else s;
    var dot := PointAt(body);
    var whole := body[..dot];
    var frac := if dot < |body| then body[dot + 1..] else [];
    if |whole| > 0 {
      assert !IsDigit(whole[0]);
    } else if |frac| > 0 {
      assert !IsDigit(frac[0]);
    }
  }
}
