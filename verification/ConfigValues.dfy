// The value validators of the configuration daemon, and the panel's reading of a height.

module ConfigValues {
  import opened KillMarkers

  // ---- unsigned ranges ----------------------------------------------------

  /** The mathematical value of the digits lies in the range. */
  predicate InRange(v: string, lo: nat, hi: nat) {
    v != "" && AllDigits(v) && lo <= Value(v) <= hi
  }

  lemma {:induction false} ValueOfPrefix(v: string, i: nat)
    requires AllDigits(v) && i <= |v|
    ensures AllDigits(v[..i]) && Value(v[..i]) <= Value(v)
    decreases |v|
  {
    if i < |v| {
      var init := v[..|v| - 1];
      ValueOfPrefix(init, i);
      assert init[..i] == v[..i];
    } else {
      assert v[..i] == v;
    }
  }

  /** The 32-bit loop accepts exactly what lies in the range: a value too large to hold is refused. */
  method UintInRange(v: string, lo: nat, hi: nat) returns (ok: bool)
    requires lo < U32 && hi < U32
    ensures ok <==> InRange(v, lo, hi)
  {
    if v == "" {
      return false;
    }
    var parsed := 0;
    for i := 0 to |v|
      invariant AllDigits(v[..i]) && parsed == Value(v[..i]) && parsed < U32
    {
      if !('0' <= v[i] <= '9') {
        assert v[i] in v;
        return false;
      }
      ValueStep(v, i);
      var digit := DigitValue(v[i]);
      if parsed > (U32 - 1 - digit) / 10 {
        if AllDigits(v) {
          ValueOfPrefix(v, i + 1);
        }
        return false;
      }
      parsed := parsed * 10 + digit;
    }
    assert v[..|v|] == v;
    return lo <= parsed <= hi;
  }

  /** What the panel makes of a height: 0 for no number, the value modulo 2^32 otherwise. */
  function Height(v: string): nat {
    if AllDigits(v) then Value(v) % U32 else 0
  }

  method ParsePanelHeight(v: string) returns (parsed: nat)
    ensures parsed == Height(v)
  {
    parsed := 0;
    for i := 0 to |v|
      invariant AllDigits(v[..i]) && parsed == Value(v[..i]) % U32
    {
      if !('0' <= v[i] <= '9') {
        assert v[i] in v;
        return 0;
      }
      ValueStep(v, i);
      WrapStep(Value(v[..i]), DigitValue(v[i]));
      parsed := (parsed * 10 + DigitValue(v[i])) % U32;
    }
    assert v[..|v|] == v;
  }

  /** The panel reads every accepted height as the number it denotes, and every height in range can
      be written so that it is accepted. */
  lemma HeightAgrees(v: string, lo: nat, hi: nat)
    requires hi < U32
    ensures InRange(v, lo, hi) ==> Height(v) == Value(v) && lo <= Height(v) <= hi
    ensures forall n :: lo <= n <= hi ==> InRange(Decimal(n), lo, hi) && Height(Decimal(n)) == n
  {
    forall n | lo <= n <= hi ensures InRange(Decimal(n), lo, hi) && Height(Decimal(n)) == n {
      DecimalInRange(n, lo, hi);
    }
    if InRange(v, lo, hi) {
      HeightWraps(v);
    }
  }

  lemma DecimalInRange(n: nat, lo: nat, hi: nat)
    requires lo <= n <= hi < U32
    ensures InRange(Decimal(n), lo, hi) && Height(Decimal(n)) == n
  {
    ValueOfDecimal(n);
  }

  /** Without the validator the panel would take some numbers for others. */
  lemma HeightWraps(v: string)
    requires AllDigits(v)
    ensures Height(v) == Value(v) <==> Value(v) < U32
  {
  }

  // ---- comma-separated lists ----------------------------------------------

  /** Identifiers of panels, or a closed set of names. */
  datatype Rule = Ids | Names(allowed: seq<string>)

  predicate IsPad(rule: Rule, c: char) {
    c == ' ' || c == '\t' || (rule.Names? && (c == '\n' || c == '\r'))
  }

  predicate IdChar(c: char) {
    ('a' <= c <= 'z') || ('0' <= c <= '9') || c == '_' || c == '-'
  }

  const MAX_ID: nat := 16

  predicate ValidId(id: string) {
    1 <= |id| <= MAX_ID && forall i :: 0 <= i < |id| ==> IdChar(id[i])
  }

  const TOKEN_BUF: nat := 128

  predicate TokenOk(rule: Rule, t: string) {
    match rule
    case Ids => ValidId(t)
    case Names(allowed) => 0 < |t| < TOKEN_BUF && t in allowed
  }

  function TrimFront(rule: Rule, s: string): string {
    if s != "" && IsPad(rule, s[0]) then TrimFront(rule, s[1..]) else s
  }

  function TrimBack(rule: Rule, s: string): string {
    if s != "" && IsPad(rule, s[|s| - 1]) then TrimBack(rule, s[..|s| - 1]) else s
  }

  function Trim(rule: Rule, s: string): string {
    TrimBack(rule, TrimFront(rule, s))
  }

  function FirstComma(s: string): (e: nat)
    ensures e <= |s|
  {
    if |s| == 0 || s[0] == ',' then 0 else 1 + FirstComma(s[1..])
  }

  /** The stretches between commas. */
  function Split(s: string): (parts: seq<string>)
    ensures |parts| > 0
    decreases |s|
  {
    var e := FirstComma(s);
    if e == |s| then [s[..e]] else [s[..e]] + Split(s[e + 1..])
  }

  lemma {:induction false} FirstCommaMeaning(s: string)
    ensures var e := FirstComma(s); ',' !in s[..e] && (e < |s| ==> s[e] == ',')
    decreases |s|
  {
    if s != "" && s[0] != ',' {
      FirstCommaMeaning(s[1..]);
      assert s[..FirstComma(s)] == [s[0]] + s[1..][..FirstComma(s[1..])];
    }
  }

  predicate PartsOk(rule: Rule, s: string)
    decreases |s|
  {
    var e := FirstComma(s);
    TokenOk(rule, Trim(rule, s[..e])) && (e == |s| || PartsOk(rule, s[e + 1..]))
  }

  predicate ListOk(rule: Rule, v: string) {
    v != "" && PartsOk(rule, v)
  }

  predicate AllOk(rule: Rule, parts: seq<string>) {
    forall i :: 0 <= i < |parts| ==> TokenOk(rule, Trim(rule, parts[i]))
  }

  lemma {:induction false} PartsExact(rule: Rule, s: string)
    ensures PartsOk(rule, s) <==> AllOk(rule, Split(s))
    decreases |s|
  {
    var e := FirstComma(s);
    if e < |s| {
      PartsExact(rule, s[e + 1..]);
      AllOkFirst(rule, Split(s), s[..e], Split(s[e + 1..]));
    } else {
      AllOkOne(rule, s[..e]);
    }
  }

  method TrimRange(rule: Rule, v: string, start: nat, end: nat) returns (first: nat, last: nat)
    requires start <= end <= |v|
    ensures start <= first <= last <= end && v[first..last] == Trim(rule, v[start..end])
  {
    first, last := start, end;
    while first < last && IsPad(rule, v[first])
      invariant start <= first <= last && TrimFront(rule, v[start..end]) == TrimFront(rule, v[first..end])
    {
      assert v[first..end][1..] == v[first + 1..end];
      first := first + 1;
    }
    assert TrimFront(rule, v[start..end]) == v[first..end];
    while last > first && IsPad(rule, v[last - 1])
      invariant first <= last <= end && TrimBack(rule, v[first..end]) == TrimBack(rule, v[first..last])
    {
      assert v[first..last][..last - first - 1] == v[first..last - 1];
      last := last - 1;
    }
  }

  method TokenValid(rule: Rule, t: string) returns (ok: bool)
    ensures ok <==> TokenOk(rule, t)
  {
    match rule {
      case Ids =>
        if |t| == 0 || |t| > MAX_ID {
          return false;
        }
        for i := 0 to |t|
          invariant forall k :: 0 <= k < i ==> IdChar(t[k])
        {
          if !IdChar(t[i]) {
            return false;
          }
        }
        return true;
      case Names(allowed) =>
        if |t| == 0 || |t| >= TOKEN_BUF {
          return false;
        }
        for i := 0 to |allowed|
          invariant t !in allowed[..i]
        {
          if allowed[i] == t {
            return true;
          }
        }
        assert allowed[..|allowed|] == allowed;
        return false;
    }
  }

  method NextToken(rule: Rule, v: string, start: nat) returns (first: nat, last: nat, end: nat)
    requires start <= |v|
    ensures start <= end <= |v| && end - start == FirstComma(v[start..])
    ensures first <= last <= |v| && v[first..last] == Trim(rule, v[start..end])
  {
    end := start;
    while end < |v| && v[end] != ','
      invariant start <= end <= |v| && FirstComma(v[start..]) == end - start + FirstComma(v[end..])
    {
      assert v[end..][1..] == v[end + 1..];
      end := end + 1;
    }
    first, last := TrimRange(rule, v, start, end);
  }

  method ListValid(rule: Rule, v: string) returns (ok: bool)
    ensures ok <==> ListOk(rule, v)
  {
    if v == "" {
      return false;
    }
    var start := 0;
    while start <= |v|
      invariant start <= |v| && PartsOk(rule, v) == PartsOk(rule, v[start..])
      decreases |v| - start
    {
      var first, last, end := NextToken(rule, v, start);
      var known := TokenValid(rule, v[first..last]);
      Suffixes(v, start, end);
      if !known {
        return false;
      }
      if end == |v| {
        return true;
      }
      start := end + 1;
    }
  }

  lemma Suffixes(v: string, start: nat, end: nat)
    requires start <= end <= |v|
    ensures v[start..][..end - start] == v[start..end]
    ensures end < |v| ==> v[start..][end - start + 1..] == v[end + 1..]
  {
  }

  lemma AllOkOne(rule: Rule, part: string)
    ensures AllOk(rule, [part]) <==> TokenOk(rule, Trim(rule, part))
  {
    assert [part][0] == part;
  }

  lemma AllOkFirst(rule: Rule, all: seq<string>, first: string, rest: seq<string>)
    requires all == [first] + rest
    ensures AllOk(rule, all) <==> TokenOk(rule, Trim(rule, first)) && AllOk(rule, rest)
  {
    if AllOk(rule, all) {
      assert all[0] == first;
      forall i | 0 <= i < |rest| ensures TokenOk(rule, Trim(rule, rest[i])) {
        assert all[i + 1] == rest[i];
      }
    }
  }

  // ---- the lists as printed -----------------------------------------------

  /** A token with the padding around it. */
  datatype Padded = Padded(before: string, token: string, after: string)

  predicate Pads(rule: Rule, w: string) {
    forall i :: 0 <= i < |w| ==> IsPad(rule, w[i])
  }

  function Print(p: Padded): string {
    p.before + p.token + p.after
  }

  function JoinCommas(parts: seq<string>): string
    requires |parts| > 0
  {
    if |parts| == 1 then parts[0] else parts[0] + ("," + JoinCommas(parts[1..]))
  }

  function Texts(ps: seq<Padded>): seq<string> {
    seq(|ps|, i requires 0 <= i < |ps| => Print(ps[i]))
  }

  predicate CleanToken(rule: Rule, t: string) {
    t != "" && ',' !in t && !IsPad(rule, t[0]) && !IsPad(rule, t[|t| - 1])
  }

  predicate WellPadded(rule: Rule, p: Padded) {
    Pads(rule, p.before) && Pads(rule, p.after) && CleanToken(rule, p.token)
  }

  lemma {:induction false} TrimFrontPads(rule: Rule, w: string, s: string)
    requires Pads(rule, w) && s != "" && !IsPad(rule, s[0])
    ensures TrimFront(rule, w + s) == s
    decreases w
  {
    if w != "" {
      TrimFrontPads(rule, w[1..], s);
      assert (w + s)[1..] == w[1..] + s;
    } else {
      assert w + s == s;
    }
  }

  lemma {:induction false} TrimBackPads(rule: Rule, s: string, w: string)
    requires Pads(rule, w) && s != "" && !IsPad(rule, s[|s| - 1])
    ensures TrimBack(rule, s + w) == s
    decreases |w|
  {
    if w != "" {
      TrimBackPads(rule, s, w[..|w| - 1]);
      assert (s + w)[..|s + w| - 1] == s + w[..|w| - 1];
    } else {
      assert s + w == s;
    }
  }

  lemma TrimPrinted(rule: Rule, p: Padded)
    requires WellPadded(rule, p)
    ensures Trim(rule, Print(p)) == p.token && ',' !in Print(p)
  {
    var s := p.token + p.after;
    assert Print(p) == p.before + s;
    assert s[0] == p.token[0];
    TrimFrontPads(rule, p.before, s);
    TrimBackPads(rule, p.token, p.after);
  }

  predicate CommaFree(parts: seq<string>) {
    forall i :: 0 <= i < |parts| ==> ',' !in parts[i]
  }

  lemma {:induction false} CommaFound(first: string, tail: string)
    requires ',' !in first && (tail != "" ==> tail[0] == ',')
    ensures FirstComma(first + tail) == |first|
    decreases |first|
  {
    var s := first + tail;
    if first != "" {
      assert s[0] == first[0] && s[1..] == first[1..] + tail;
      CommaFound(first[1..], tail);
    }
  }

  lemma SplitLast(first: string)
    requires ',' !in first
    ensures Split(first) == [first]
  {
    assert first + "" == first;
    CommaFound(first, "");
  }

  lemma SplitFirst(first: string, tail: string)
    requires ',' !in first
    ensures Split(first + ("," + tail)) == [first] + Split(tail)
  {
    var s := first + ("," + tail);
    CommaFound(first, "," + tail);
    assert s[..|first|] == first && s[|first| + 1..] == tail;
  }

  /** Splitting inverts joining. */
  lemma {:induction false} SplitJoin(parts: seq<string>)
    requires |parts| > 0 && CommaFree(parts)
    ensures Split(JoinCommas(parts)) == parts
    decreases |parts|
  {
    var first, rest := parts[0], parts[1..];
    JoinHead(parts, first, rest);
    if |parts| == 1 {
      SplitLast(first);
    } else {
      SplitJoin(rest);
      SplitFirst(first, JoinCommas(rest));
    }
  }

  lemma JoinHead(parts: seq<string>, first: string, rest: seq<string>)
    requires |parts| > 0 && CommaFree(parts) && first == parts[0] && rest == parts[1..]
    ensures ',' !in first && CommaFree(rest) && parts == [first] + rest
    ensures JoinCommas(parts) == if |parts| == 1 then first else first + ("," + JoinCommas(rest))
  {
  }

  lemma JoinMore(first: string, rest: seq<string>)
    requires ',' !in first && CommaFree(rest) && |rest| > 0
    ensures CommaFree([first] + rest) && JoinCommas([first] + rest) == first + ("," + JoinCommas(rest))
  {
    assert ([first] + rest)[1..] == rest;
  }

  lemma CutAt(s: string, e: nat)
    requires e < |s| && s[e] == ','
    ensures s == s[..e] + ("," + s[e + 1..])
  {
  }

  /** Joining inverts splitting. */
  lemma {:induction false} JoinSplit(s: string)
    ensures CommaFree(Split(s)) && JoinCommas(Split(s)) == s
    decreases |s|
  {
    var e := FirstComma(s);
    FirstCommaMeaning(s);
    if e < |s| {
      CutAt(s, e);
      JoinSplit(s[e + 1..]);
      JoinMore(s[..e], Split(s[e + 1..]));
    } else {
      assert s[..e] == s;
    }
  }

  lemma {:induction false} TrimFrontSplit(rule: Rule, s: string) returns (w: string)
    ensures Pads(rule, w) && s == w + TrimFront(rule, s)
    ensures var t := TrimFront(rule, s); t != "" ==> !IsPad(rule, t[0])
    decreases |s|
  {
    w := "";
    if s != "" && IsPad(rule, s[0]) {
      var rest := TrimFrontSplit(rule, s[1..]);
      w := [s[0]] + rest;
    }
  }

  lemma {:induction false} TrimBackSplit(rule: Rule, s: string) returns (w: string)
    ensures Pads(rule, w) && s == TrimBack(rule, s) + w
    ensures var t := TrimBack(rule, s); t != "" ==> !IsPad(rule, t[|t| - 1]) && t[0] == s[0]
    decreases |s|
  {
    w := "";
    if s != "" && IsPad(rule, s[|s| - 1]) {
      var rest := TrimBackSplit(rule, s[..|s| - 1]);
      w := rest + [s[|s| - 1]];
    }
  }

  lemma Unpad(rule: Rule, s: string) returns (p: Padded)
    requires ',' !in s && CleanToken(rule, Trim(rule, s))
    ensures Print(p) == s && p.token == Trim(rule, s) && WellPadded(rule, p)
  {
    var front := TrimFrontSplit(rule, s);
    var back := TrimBackSplit(rule, TrimFront(rule, s));
    p := Padded(front, Trim(rule, s), back);
    assert s == front + (p.token + back);
  }

  /** The value is a printing of a non-empty list of good tokens. */
  ghost predicate IsListing(rule: Rule, v: string, ps: seq<Padded>) {
    && ps != [] && v == JoinCommas(Texts(ps))
    && forall i :: 0 <= i < |ps| ==> WellPadded(rule, ps[i]) && TokenOk(rule, ps[i].token)
  }

  lemma {:induction false} UnpadAll(rule: Rule, parts: seq<string>) returns (ps: seq<Padded>)
    requires CommaFree(parts) && AllOk(rule, parts) && forall t :: TokenOk(rule, t) ==> CleanToken(rule, t)
    ensures Texts(ps) == parts && forall i :: 0 <= i < |ps| ==> WellPadded(rule, ps[i]) && TokenOk(rule, ps[i].token)
  {
    ps := [];
    if parts != [] {
      var init, last := parts[..|parts| - 1], parts[|parts| - 1];
      var before := UnpadAll(rule, init);
      var p := Unpad(rule, last);
      ps := before + [p];
      assert parts == init + [last];
    }
  }

  /** The validator accepts a value exactly when it is such a printing; the padding is free. */
  lemma ListExact(rule: Rule, v: string)
    requires forall t :: TokenOk(rule, t) ==> CleanToken(rule, t)
    ensures ListOk(rule, v) <==> exists ps: seq<Padded> :: IsListing(rule, v, ps)
  {
    if ListOk(rule, v) {
      PartsExact(rule, v);
      JoinSplit(v);
      var ps := UnpadAll(rule, Split(v));
      assert IsListing(rule, v, ps);
    }
    if ps: seq<Padded> :| IsListing(rule, v, ps) {
      ListingOk(rule, v, ps);
    }
  }

  /** Splitting and trimming give back the tokens that were printed. */
  lemma ListingOk(rule: Rule, v: string, ps: seq<Padded>)
    requires IsListing(rule, v, ps)
    ensures ListOk(rule, v) && Split(v) == Texts(ps)
    ensures forall i :: 0 <= i < |ps| ==> Trim(rule, Split(v)[i]) == ps[i].token
  {
    forall i | 0 <= i < |ps| ensures Trim(rule, Texts(ps)[i]) == ps[i].token && ',' !in Texts(ps)[i] {
      TrimPrinted(rule, ps[i]);
    }
    SplitJoin(Texts(ps));
    PartsExact(rule, v);
    assert v != "" by {
      assert ps[0].token != "";
      assert Texts(ps)[0] != "";
    }
  }

  /** Panel identifiers and the names of the widgets are such tokens. */
  lemma CleanRules(t: string)
    ensures TokenOk(Ids, t) ==> CleanToken(Ids, t)
    ensures TokenOk(Names(["clock", "launcher", "tasklist"]), t) ==> CleanToken(Names(["clock", "launcher", "tasklist"]), t)
  {
  }
}
