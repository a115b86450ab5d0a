// The suggestion for a mistyped configuration key: the two-row edit distance, what it measures,
// and which candidate is chosen.

module EditDistance {

  function Min(a: nat, b: nat): nat {
    if a < b then a else b
  }

  function Min3(a: nat, b: nat, c: nat): nat {
    Min(Min(a, b), c)
  }

  function Init(s: string): string
    requires s != ""
  {
    s[..|s| - 1]
  }

  function Last(s: string): char
    requires s != ""
  {
    s[|s| - 1]
  }

  /** The recursive edit distance, by the last characters. */
  function Distance(a: string, b: string): nat
    decreases |a| + |b|
  {
    if a == "" then |b|
    else if b == "" then |a|
    else Min3(Distance(Init(a), Init(b)) + if Last(a) == Last(b) then 0 else 1,
              Distance(a, Init(b)) + 1,
              Distance(Init(a), b) + 1)
  }

  // ---- what it measures ---------------------------------------------------

  /** One edit, from the front of a text to its end. */
  datatype Edit = Keep | Change(c: char) | Insert(c: char) | Delete

  function Cost(script: seq<Edit>): nat {
    if script == [] then 0 else Cost(script[..|script| - 1]) + if script[|script| - 1].Keep? then 0 else 1
  }

  /** The script turns `a` into `b`. */
  predicate Turns(script: seq<Edit>, a: string, b: string) {
    if script == [] then a == "" && b == ""
    else
      var rest := script[..|script| - 1];
      match script[|script| - 1]
      case Keep => a != "" && b != "" && Last(a) == Last(b) && Turns(rest, Init(a), Init(b))
      case Change(c) => a != "" && b != "" && Last(b) == c && Turns(rest, Init(a), Init(b))
      case Insert(c) => b != "" && Last(b) == c && Turns(rest, a, Init(b))
      case Delete => a != "" && Turns(rest, Init(a), b)
  }

  lemma {:induction false} DistanceBelow(a: string, b: string)
    ensures a != "" ==> Distance(a, b) <= Distance(Init(a), b) + 1
    ensures b != "" ==> Distance(a, b) <= Distance(a, Init(b)) + 1
    ensures a != "" && b != "" ==> Distance(a, b) <= Distance(Init(a), Init(b)) + if Last(a) == Last(b) then 0 else 1
  {
  }

  /** No script is cheaper. */
  lemma {:induction false} DistanceLeast(script: seq<Edit>, a: string, b: string)
    requires Turns(script, a, b)
    ensures Distance(a, b) <= Cost(script)
    decreases |script|
  {
    if script != [] {
      var rest := script[..|script| - 1];
      DistanceBelow(a, b);
      match script[|script| - 1]
      case Keep => DistanceLeast(rest, Init(a), Init(b));
      case Change(c) => DistanceLeast(rest, Init(a), Init(b));
      case Insert(c) => DistanceLeast(rest, a, Init(b));
      case Delete => DistanceLeast(rest, Init(a), b);
    }
  }

  lemma Extend(script: seq<Edit>, e: Edit)
    ensures (script + [e])[..|script|] == script && Cost(script + [e]) == Cost(script) + if e.Keep? then 0 else 1
  {
    assert (script + [e])[..|script|] == script;
  }

  /** Some script costs exactly the distance. */
  lemma {:induction false} DistanceReached(a: string, b: string) returns (script: seq<Edit>)
    ensures Turns(script, a, b) && Cost(script) == Distance(a, b)
    decreases |a| + |b|
  {
    if a == "" && b == "" {
      script := [];
    } else if a == "" || (b != "" && Distance(a, b) == Distance(a, Init(b)) + 1) {
      var rest := DistanceReached(a, Init(b));
      Extend(rest, Insert(Last(b)));
      script := rest + [Insert(Last(b))];
    } else if b == "" || Distance(a, b) == Distance(Init(a), b) + 1 {
      var rest := DistanceReached(Init(a), b);
      Extend(rest, Delete);
      script := rest + [Delete];
    } else {
      var rest := DistanceReached(Init(a), Init(b));
      var e := if Last(a) == Last(b) then Keep else Change(Last(b));
      Extend(rest, e);
      script := rest + [e];
    }
  }

  /** The distance is the cost of a cheapest script of single-character edits. */
  lemma DistanceExact(a: string, b: string)
    ensures exists script :: Turns(script, a, b) && Cost(script) == Distance(a, b)
    ensures forall script :: Turns(script, a, b) ==> Distance(a, b) <= Cost(script)
  {
    var script := DistanceReached(a, b);
    forall other | Turns(other, a, b) ensures Distance(a, b) <= Cost(other) {
      DistanceLeast(other, a, b);
    }
  }

  lemma {:induction false} FreeScript(script: seq<Edit>, a: string, b: string)
    requires Turns(script, a, b) && Cost(script) == 0
    ensures a == b
    decreases |script|
  {
    if script != [] {
      FreeScript(script[..|script| - 1], Init(a), Init(b));
      assert a == Init(a) + [Last(a)] && b == Init(b) + [Last(b)];
    }
  }

  lemma {:induction false} SameDistance(a: string)
    ensures Distance(a, a) == 0
    decreases |a|
  {
    if a != "" {
      SameDistance(Init(a));
    }
  }

  /** Only the key itself is at distance zero. */
  lemma DistanceZero(a: string, b: string)
    ensures Distance(a, b) == 0 <==> a == b
  {
    SameDistance(a);
    if Distance(a, b) == 0 {
      var script := DistanceReached(a, b);
      FreeScript(script, a, b);
    }
  }

  // ---- the two rows -------------------------------------------------------

  const ROW: nat := 128

  /** The row holds the distances of a prefix of `a` to the prefixes of `b`, from `lo` to below `hi`. */
  predicate RowIs(row: seq<nat>, a: string, b: string, hi: nat) {
    hi <= |row| && hi <= |b| + 1 && forall j :: 0 <= j < hi ==> row[j] == Distance(a, b[..j])
  }

  lemma Prefix(s: string, i: nat)
    requires 0 < i <= |s|
    ensures s[..i] != "" && Init(s[..i]) == s[..i - 1] && Last(s[..i]) == s[i - 1]
  {
  }

  method FillRow(prev: array<nat>, curr: array<nat>, a: string, b: string, i: nat)
    requires prev.Length == curr.Length == ROW && prev != curr && 0 < i <= |a| && |b| < ROW
    requires RowIs(prev[..], a[..i - 1], b, |b| + 1)
    modifies curr
    ensures RowIs(curr[..], a[..i], b, |b| + 1)
  {
    Prefix(a, i);
    curr[0] := i;
    assert b[..0] == "";
    var j := 1;
    while j <= |b|
      invariant 1 <= j <= |b| + 1 && RowIs(curr[..], a[..i], b, j)
      invariant RowIs(prev[..], a[..i - 1], b, |b| + 1)
    {
      Prefix(b, j);
      assert prev[..][j - 1] == prev[j - 1] && prev[..][j] == prev[j] && curr[..][j - 1] == curr[j - 1];
      var best := prev[j - 1] + if a[i - 1] == b[j - 1] then 0 else 1;
      var ins := curr[j - 1] + 1;
      var del := prev[j] + 1;
      if ins < best {
        best := ins;
      }
      if del < best {
        best := del;
      }
      ghost var before := curr[..];
      curr[j] := best;
      assert best == Distance(a[..i], b[..j]);
      assert curr[..] == before[j := best];
      j := j + 1;
    }
  }

  /** The loop over two rows of a fixed size computes the recursive distance. */
  method Levenshtein(a: string, b: string) returns (d: nat)
    requires |b| < ROW
    ensures d == Distance(a, b)
  {
    var prev, curr := new nat[ROW](_ => 0), new nat[ROW](_ => 0);
    for j := 0 to |b| + 1
      invariant forall k :: 0 <= k < j ==> prev[k] == k
    {
      prev[j] := j;
    }
    assert a[..0] == "" && RowIs(prev[..], "", b, |b| + 1);
    for i := 1 to |a| + 1
      invariant prev.Length == curr.Length == ROW && prev != curr && RowIs(prev[..], a[..i - 1], b, |b| + 1)
    {
      FillRow(prev, curr, a, b, i);
      CopyRow(prev, curr, |b|);
      assert forall j :: 0 <= j <= |b| ==> prev[..][j] == curr[..][j];
    }
    assert a[..|a|] == a && b[..|b|] == b;
    assert prev[..][|b|] == prev[|b|];
    return prev[|b|];
  }

  method CopyRow(prev: array<nat>, curr: array<nat>, n: nat)
    requires prev.Length == curr.Length == ROW && prev != curr && n < ROW
    modifies prev
    ensures forall j :: 0 <= j <= n ==> prev[j] == curr[j]
  {
    for j := 0 to n + 1
      invariant forall k :: 0 <= k < j ==> prev[k] == curr[k]
    {
      prev[j] := curr[j];
    }
  }

  // ---- the suggestion -----------------------------------------------------

  const CLOSE: nat := 3

  /** The first candidate that no other is closer than. */
  predicate Nearest(key: string, candidates: seq<string>, k: nat) {
    && k < |candidates|
    && (forall i :: 0 <= i < |candidates| ==> Distance(key, candidates[k]) <= Distance(key, candidates[i]))
    && (forall i :: 0 <= i < k ==> Distance(key, candidates[k]) < Distance(key, candidates[i]))
  }

  const FAR: nat := 0xffff_ffff

  lemma {:induction false} DistanceBounded(a: string, b: string)
    ensures Distance(a, b) <= |a| + |b|
    decreases |a| + |b|
  {
    if a != "" && b != "" {
      DistanceBounded(Init(a), b);
    }
  }

  /** Key names are not empty and fit the rows. */
  predicate Candidates(names: seq<string>) {
    forall i :: 0 <= i < |names| ==> 0 < |names[i]| < ROW
  }

  lemma NamedConcat(a: seq<string>, b: seq<string>)
    requires Candidates(a) && Candidates(b)
    ensures Candidates(a + b)
  {
  }

  /** A running minimum: what a scan of `seen` has chosen, and where it first stands. */
  ghost predicate Chosen(key: string, seen: seq<string>, best: string, d: nat) {
    if seen == [] then best == "" && d == FAR
    else d == Distance(key, best) && exists at: nat :: Nearest(key, seen, at) && best == seen[at]
  }

  method Consider(key: string, candidate: string, best: string, bestD: nat, ghost seen: seq<string>)
    returns (nearest: string, nearestD: nat)
    requires |candidate| < ROW && |key| + ROW < FAR && Chosen(key, seen, best, bestD)
    ensures Chosen(key, seen + [candidate], nearest, nearestD)
  {
    var d := Levenshtein(key, candidate);
    DistanceBounded(key, candidate);
    ghost var all := seen + [candidate];
    if d < bestD {
      assert Nearest(key, all, |seen|);
      return candidate, d;
    }
    ghost var at :| 0 <= at && Nearest(key, seen, at) && best == seen[at];
    assert Nearest(key, all, at) && best == all[at];
    return best, bestD;
  }

  method Scan(key: string, candidates: seq<string>, best0: string, d0: nat, ghost seen: seq<string>)
    returns (best: string, bestD: nat)
    requires Candidates(candidates) && |key| + ROW < FAR
    requires Chosen(key, seen, best0, d0)
    ensures Chosen(key, seen + candidates, best, bestD)
  {
    best, bestD := best0, d0;
    assert seen + candidates[..0] == seen;
    for i := 0 to |candidates|
      invariant Chosen(key, seen + candidates[..i], best, bestD)
    {
      best, bestD := Consider(key, candidates[i], best, bestD, seen + candidates[..i]);
      assert seen + candidates[..i] + [candidates[i]] == seen + candidates[..i + 1];
    }
    assert candidates[..|candidates|] == candidates;
  }

  /** The first nearest candidate of the flat and then the instantiated keys; nothing exactly when
      no candidate is near. */
  method SuggestSimilar(key: string, flat: seq<string>, instantiated: seq<string>) returns (best: string)
    requires Candidates(flat) && Candidates(instantiated) && |key| + ROW < FAR
    ensures Suggested(key, flat + instantiated, best)
  {
    var bestD: nat;
    best, bestD := Scan(key, flat, "", FAR, []);
    assert [] + flat == flat;
    best, bestD := Scan(key, instantiated, best, bestD, flat);
    NamedConcat(flat, instantiated);
    SuggestedFrom(key, flat + instantiated, best, bestD);
    best := if bestD > CLOSE then "" else best;
  }

  ghost predicate Suggested(key: string, all: seq<string>, best: string) {
    && (best == "" <==> forall i :: 0 <= i < |all| ==> Distance(key, all[i]) > 3)
    && (best != "" ==> exists k: nat :: Nearest(key, all, k) && best == all[k])
  }

  lemma SuggestedFrom(key: string, all: seq<string>, best: string, d: nat)
    requires Chosen(key, all, best, d) && Candidates(all)
    ensures Suggested(key, all, if d > CLOSE then "" else best)
  {
    if all != [] {
      var at: nat :| Nearest(key, all, at) && best == all[at];
    }
  }
}
