// Substituting a decimal number for every occurrence of a marker in a text, as
// the supervisor does with the kill version.

module KillMarkers {
  import opened TextScan

  const U32: nat := 0x1_0000_0000

  // ---- decimal rendering --------------------------------------------------

  predicate IsDigit(c: char) { '0' <= c <= '9' }

  predicate AllDigits(s: string) {
    forall c :: c in s ==> IsDigit(c)
  }

  function DigitChar(d: nat): (c: char)
    requires d < 10
    ensures IsDigit(c)
  {
    '0' + d as char
  }

  function DigitValue(c: char): (d: nat)
    requires IsDigit(c)
    ensures d < 10 && DigitChar(d) == c
  {
    (c - '0') as nat
  }

  function Decimal(v: nat): (s: string)
    ensures s != "" && AllDigits(s)
  {
    if v < 10 then [DigitChar(v)] else Decimal(v / 10) + [DigitChar(v % 10)]
  }

  /** The number a digit string denotes. */
  function Value(s: string): nat
    requires AllDigits(s)
  {
    if s == "" then 0 else 10 * Value(s[..|s| - 1]) + DigitValue(s[|s| - 1])
  }

  lemma {:induction false} ValueOfDecimal(v: nat)
    ensures Value(Decimal(v)) == v
  {
    if v >= 10 {
      ValueOfDecimal(v / 10);
      var s := Decimal(v);
      assert s[..|s| - 1] == Decimal(v / 10);
    } else {
      assert Decimal(v)[..0] == "";
    }
  }

  /** Different numbers are rendered differently. */
  lemma DecimalInjective(v: nat, w: nat)
    requires Decimal(v) == Decimal(w)
    ensures v == w
  {
    ValueOfDecimal(v);
    ValueOfDecimal(w);
  }

  lemma ValueStep(v: string, i: nat)
    requires i < |v| && AllDigits(v[..i]) && IsDigit(v[i])
    ensures AllDigits(v[..i + 1]) && Value(v[..i + 1]) == 10 * Value(v[..i]) + DigitValue(v[i])
  {
    assert v[..i + 1] == v[..i] + [v[i]];
    assert v[..i + 1][..i] == v[..i];
  }

  lemma WrapStep(n: nat, d: nat)
    ensures (n % U32 * 10 + d) % U32 == (10 * n + d) % U32
  {
    var q, r := n / U32, n % U32;
    assert 10 * n + d == r * 10 + d + 10 * q * U32;
    WrapDrop(r * 10 + d, 10 * q);
  }

  lemma {:induction false} WrapDrop(a: nat, q: nat)
    ensures (a + q * U32) % U32 == a % U32
    decreases q
  {
    if q > 0 {
      WrapDrop(a, q - 1);
      assert a + q * U32 == a + (q - 1) * U32 + U32;
    }
  }

  function Pow10(n: nat): nat {
    if n == 0 then 1 else 10 * Pow10(n - 1)
  }

  lemma {:induction false} DecimalLength(v: nat, n: nat)
    requires 0 < n && v < Pow10(n)
    ensures |Decimal(v)| <= n
  {
    if v >= 10 {
      DecimalLength(v / 10, n - 1);
    }
  }

  lemma Decimal32(v: nat)
    requires v < U32
    ensures |Decimal(v)| <= 10
  {
    assert Pow10(5) == 100000;
    assert Pow10(10) == 10_000_000_000;
    DecimalLength(v, 10);
  }

  /** The digits of a 32-bit number, last digit first. */
  method Remainders(value: nat) returns (tmp: array<char>, t: nat)
    requires value < U32
    ensures fresh(tmp) && t <= 10 < tmp.Length && Reversed(tmp[..t]) == Decimal(value)
  {
    Decimal32(value);
    tmp := new char[16];
    t := 0;
    var v := value;
    ghost var s := "";
    while true
      invariant t == |s| <= 9 && s == tmp[..t]
      invariant Decimal(value) == Decimal(v) + Reversed(s)
      decreases v
    {
      ReversedPush(s, DigitChar(v % 10));
      tmp[t] := DigitChar(v % 10);
      s := s + [DigitChar(v % 10)];
      t := t + 1;
      assert s == tmp[..t];
      v := v / 10;
      if v == 0 {
        return;
      }
    }
  }

  /** The rendering the substitution inserts. */
  method RenderDecimal(value: nat) returns (digits: array<char>, len: nat)
    requires value < U32
    ensures fresh(digits) && len <= digits.Length && digits[..len] == Decimal(value)
  {
    var tmp, t := Remainders(value);
    digits := new char[16];
    ghost var all := tmp[..t];
    len := 0;
    while t > 0
      invariant t + len == |all| <= 10 && t <= tmp.Length
      invariant forall k :: 0 <= k < t ==> tmp[k] == all[k]
      invariant forall k :: 0 <= k < len ==> digits[k] == all[|all| - 1 - k]
    {
      t := t - 1;
      digits[len] := tmp[t];
      len := len + 1;
    }
    assert digits[..len] == Reversed(all);
  }

  function Reversed(s: string): string {
    seq(|s|, k requires 0 <= k < |s| => s[|s| - 1 - k])
  }

  lemma ReversedPush(s: string, c: char)
    ensures Reversed(s + [c]) == [c] + Reversed(s)
  {
  }

  // ---- replacing the markers ----------------------------------------------

  /** `text[i..]` with every occurrence of the marker, taken from the left, replaced by `d`. */
  function ReplaceFrom(text: string, i: nat, marker: string, d: string): string
    requires i <= |text| && marker != ""
    decreases |text| - i
  {
    if i == |text| then ""
    else if At(text, i, marker) then d + ReplaceFrom(text, i + |marker|, marker, d)
    else [text[i]] + ReplaceFrom(text, i + 1, marker, d)
  }

  function Replace(text: string, marker: string, d: string): string
    requires marker != ""
  {
    ReplaceFrom(text, 0, marker, d)
  }

  /** Writes the substituted text to `dst`, never past its end. The copy is complete exactly when
      the whole result leaves room for two characters; otherwise it stops near the end. */
  method SubstituteDecimal(text: string, marker: string, value: nat, dst: array<char>) returns (o: nat)
    requires marker != "" && value < U32 && dst.Length > 0
    modifies dst
    ensures o < dst.Length && dst[o] == '\0' && (o == 0 || o + 2 <= dst.Length)
    ensures dst[..o] <= Replace(text, marker, Decimal(value))
    ensures var whole := |Replace(text, marker, Decimal(value))|;
      if whole == 0 || whole + 2 <= dst.Length then o == whole
      else o < whole && o <= dst.Length - 1 <= o + |Decimal(value)|
  {
    var cap := dst.Length;
    var digits, digitsLen := RenderDecimal(value);
    ghost var d := digits[..digitsLen];
    ghost var result := Replace(text, marker, d);
    ghost var written := "";
    var i: nat := 0;
    o := 0;
    assert dst[..0] == "" && written + ReplaceFrom(text, 0, marker, d) == result;
    while i < |text|
      invariant i <= |text| && o < cap && (o == 0 || o + 2 <= cap)
      invariant |written| == o && dst[..o] == written
      invariant digits[..digitsLen] == d == Decimal(value)
      invariant written + ReplaceFrom(text, i, marker, d) == result
      decreases |text| - i
    {
      var hit := TagAt(text, i, marker);
      if hit {
        if o + digitsLen + 1 >= cap {
          break;
        }
        CopyDigits(digits, digitsLen, dst, o);
        Regroup(written, d, ReplaceFrom(text, i + |marker|, marker, d));
        written := written + d;
        o := o + digitsLen;
        i := i + |marker|;
      } else {
        if o + 2 >= cap {
          break;
        }
        dst[o] := text[i];
        assert dst[..o + 1] == dst[..o] + [text[i]];
        Regroup(written, [text[i]], ReplaceFrom(text, i + 1, marker, d));
        written := written + [text[i]];
        o := o + 1;
        i := i + 1;
      }
    }
    dst[o] := '\0';
    assert dst[..o] == written;
    assert i < |text| ==> |ReplaceFrom(text, i, marker, d)| > 0;
  }

  lemma Regroup(a: string, b: string, c: string)
    ensures a + (b + c) == (a + b) + c
  {
  }

  method CopyDigits(digits: array<char>, len: nat, dst: array<char>, o: nat)
    requires len <= digits.Length && o + len <= dst.Length && digits != dst
    modifies dst
    ensures dst[..o + len] == old(dst[..o]) + digits[..len]
  {
    for k := 0 to len
      invariant dst[..o + k] == old(dst[..o]) + digits[..k]
    {
      dst[o + k] := digits[k];
      assert dst[..o + k + 1] == dst[..o + k] + [digits[k]];
    }
  }

  // ---- what the substitution means ----------------------------------------

  /** The stretches of text between the markers. */
  function SegmentsFrom(text: string, i: nat, marker: string): (r: seq<string>)
    requires i <= |text| && marker != ""
    ensures r != []
    decreases |text| - i
  {
    if i == |text| then [""]
    else if At(text, i, marker) then [""] + SegmentsFrom(text, i + |marker|, marker)
    else
      var r := SegmentsFrom(text, i + 1, marker);
      [[text[i]] + r[0]] + r[1..]
  }

  function Segments(text: string, marker: string): seq<string>
    requires marker != ""
  {
    SegmentsFrom(text, 0, marker)
  }

  function Join(segs: seq<string>, d: string): string
    requires segs != []
  {
    if |segs| == 1 then segs[0] else segs[0] + (d + Join(segs[1..], d))
  }

  lemma JoinCons(c: char, segs: seq<string>, d: string)
    requires segs != []
    ensures Join([[c] + segs[0]] + segs[1..], d) == [c] + Join(segs, d)
  {
    var longer := [[c] + segs[0]] + segs[1..];
    if |segs| > 1 {
      assert longer[1..] == segs[1..];
      Regroup([c], segs[0], d + Join(segs[1..], d));
    }
  }

  lemma JoinEmpty(segs: seq<string>, d: string)
    requires segs != []
    ensures Join([""] + segs, d) == d + Join(segs, d)
  {
    assert ([""] + segs)[1..] == segs;
    assert "" + (d + Join(segs, d)) == d + Join(segs, d);
  }

  lemma {:induction false} ReplaceIsJoin(text: string, i: nat, marker: string, d: string)
    requires i <= |text| && marker != ""
    ensures ReplaceFrom(text, i, marker, d) == Join(SegmentsFrom(text, i, marker), d)
    decreases |text| - i
  {
    if i == |text| {
    } else if At(text, i, marker) {
      ReplaceIsJoin(text, i + |marker|, marker, d);
      JoinEmpty(SegmentsFrom(text, i + |marker|, marker), d);
    } else {
      ReplaceIsJoin(text, i + 1, marker, d);
      JoinCons(text[i], SegmentsFrom(text, i + 1, marker), d);
    }
  }

  /** Putting the marker back gives the text: nothing outside the marker sites is touched. */
  lemma {:induction false} JoinMarker(text: string, i: nat, marker: string)
    requires i <= |text| && marker != ""
    ensures Join(SegmentsFrom(text, i, marker), marker) == text[i..]
    decreases |text| - i
  {
    if i == |text| {
    } else if At(text, i, marker) {
      JoinMarker(text, i + |marker|, marker);
      JoinEmpty(SegmentsFrom(text, i + |marker|, marker), marker);
      AtSlice(text, i, marker);
      assert text[i..] == text[i..i + |marker|] + text[i + |marker|..];
    } else {
      JoinMarker(text, i + 1, marker);
      JoinCons(text[i], SegmentsFrom(text, i + 1, marker), marker);
    }
  }

  ghost predicate MarkerFree(s: string, marker: string) {
    forall j: nat :: !At(s, j, marker)
  }

  lemma AtPrefix(a: string, b: string, j: nat, m: string)
    requires j + |m| <= |a|
    ensures At(a + b, j, m) == At(a, j, m)
  {
  }

  lemma AtSuffix(a: string, b: string, j: nat, m: string)
    requires j >= |a|
    ensures At(a + b, j, m) == At(b, j - |a|, m)
  {
    if At(a + b, j, m) {
      forall k | 0 <= k < |m| ensures b[j - |a| + k] == m[k] {
        assert (a + b)[j + k] == m[k];
      }
    }
  }

  lemma DigitMismatch(text: string, j: nat, marker: string, k: nat)
    requires j <= k < j + |marker| && k < |text| && IsDigit(text[k])
    requires forall c :: c in marker ==> !IsDigit(c)
    ensures !At(text, j, marker)
  {
    assert marker[k - j] in marker;
    assert text[j + (k - j)] != marker[k - j];
  }

  lemma {:induction false} SegmentsMarkerFree(text: string, i: nat, marker: string)
    requires i <= |text| && marker != ""
    ensures var r := SegmentsFrom(text, i, marker);
      At(text, i, r[0]) && forall s :: s in r ==> MarkerFree(s, marker)
    decreases |text| - i
  {
    if i == |text| {
    } else if At(text, i, marker) {
      SegmentsMarkerFree(text, i + |marker|, marker);
    } else {
      SegmentsMarkerFree(text, i + 1, marker);
      var r := SegmentsFrom(text, i + 1, marker);
      var s := [text[i]] + r[0];
      forall k | 0 <= k < |s| ensures text[i + k] == s[k] {
        assert k > 0 ==> s[k] == r[0][k - 1];
      }
      forall j: nat ensures !At(s, j, marker) {
        if j == 0 {
          assert At(s, 0, marker) ==> At(text, i, marker);
        } else {
          AtSuffix([text[i]], r[0], j, marker);
          assert MarkerFree(r[0], marker);
        }
      }
      var all := [s] + r[1..];
      forall x | x in all ensures MarkerFree(x, marker) {
        assert x == s || x in r[1..];
      }
    }
  }

  /** A marker without digits cannot arise across an inserted number. */
  lemma {:induction false} JoinMarkerFree(segs: seq<string>, d: string, marker: string)
    requires segs != [] && marker != "" && d != "" && AllDigits(d)
    requires forall c :: c in marker ==> !IsDigit(c)
    requires forall s :: s in segs ==> MarkerFree(s, marker)
    ensures MarkerFree(Join(segs, d), marker)
    decreases segs
  {
    if |segs| > 1 {
      var rest, whole := Join(segs[1..], d), Join(segs, d);
      JoinMarkerFree(segs[1..], d, marker);
      var a, b := |segs[0]|, |segs[0]| + |d|;
      forall j: nat ensures !At(whole, j, marker) {
        if j + |marker| <= a {
          AtPrefix(segs[0], d + rest, j, marker);
          assert MarkerFree(segs[0], marker);
        } else if j >= b {
          Regroup(segs[0], d, rest);
          AtSuffix(segs[0] + d, rest, j, marker);
        } else {
          var k := if j < a then a else j;
          assert whole[k] == d[k - a] && d[k - a] in d;
          DigitMismatch(whole, j, marker, k);
        }
      }
    } else {
      assert MarkerFree(segs[0], marker);
    }
  }

  /** Every marker is replaced: none is left, whatever surrounds the markers. */
  lemma EveryMarkerReplaced(text: string, marker: string, v: nat)
    requires marker != "" && (forall c :: c in marker ==> !IsDigit(c))
    ensures MarkerFree(Replace(text, marker, Decimal(v)), marker)
  {
    ReplaceIsJoin(text, 0, marker, Decimal(v));
    SegmentsMarkerFree(text, 0, marker);
    JoinMarkerFree(Segments(text, marker), Decimal(v), marker);
  }

  /** Where the k-th replaced marker stands in the result. */
  function SiteOffset(segs: seq<string>, d: string, k: nat): nat
    requires k < |segs|
  {
    if k == 0 then |segs[0]| else |segs[0]| + |d| + SiteOffset(segs[1..], d, k - 1)
  }

  lemma {:induction false} SiteHolds(segs: seq<string>, d: string, k: nat)
    requires k + 1 < |segs|
    ensures At(Join(segs, d), SiteOffset(segs, d, k), d)
    decreases k
  {
    var whole, rest := Join(segs, d), Join(segs[1..], d);
    if k == 0 {
      forall j | 0 <= j < |d| ensures whole[|segs[0]| + j] == d[j] {
      }
    } else {
      SiteHolds(segs[1..], d, k - 1);
      var off := SiteOffset(segs[1..], d, k - 1);
      forall j | 0 <= j < |d| ensures whole[SiteOffset(segs, d, k) + j] == d[j] {
        assert whole[|segs[0]| + |d| + (off + j)] == rest[off + j];
      }
    }
  }

  /** Two renderings with different numbers: the same text around the markers, and at every
      marker site a different number. */
  lemma SitesDiffer(text: string, marker: string, v: nat, w: nat, k: nat)
    requires marker != "" && v != w && k + 1 < |Segments(text, marker)|
    ensures var segs := Segments(text, marker);
      && Join(segs, marker) == text
      && Replace(text, marker, Decimal(v)) == Join(segs, Decimal(v))
      && Replace(text, marker, Decimal(w)) == Join(segs, Decimal(w))
      && At(Replace(text, marker, Decimal(v)), SiteOffset(segs, Decimal(v), k), Decimal(v))
      && At(Replace(text, marker, Decimal(w)), SiteOffset(segs, Decimal(w), k), Decimal(w))
      && Decimal(v) != Decimal(w)
  {
    var segs := Segments(text, marker);
    JoinMarker(text, 0, marker);
    assert text[0..] == text;
    ReplaceIsJoin(text, 0, marker, Decimal(v));
    ReplaceIsJoin(text, 0, marker, Decimal(w));
    SiteHolds(segs, Decimal(v), k);
    SiteHolds(segs, Decimal(w), k);
    if Decimal(v) == Decimal(w) {
      DecimalInjective(v, w);
    }
  }
}
