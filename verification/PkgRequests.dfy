// Requests as they arrive, with the repeated ones among them.

module PkgRequests {
  import opened Wrappers
  import opened PkgRepo
  import opened PkgInstalled
  import opened PkgDaemon

  /** A request as read; `staged` and `admitted` are what the image and the budgets answer to it. */
  datatype Raw = Raw(op: string, pkg: Name, serial: string, staged: bool, admitted: bool)

  /** The signature buffer holds 160 bytes, the terminating zero included. */
  const MAX_SIGNATURE: nat := 159

  function Signature(q: Raw): string {
    var sig := q.op + "|" + q.pkg + "|" + q.serial;
    if |sig| <= MAX_SIGNATURE then sig else sig[..MAX_SIGNATURE]
  }

  function Parse(q: Raw): Request {
    if q.op == "list" || q.pkg == "" then Other
    else if q.op == "explain" then ExplainReq(q.pkg)
    else if q.op == "install" then InstallReq(q.pkg, q.admitted)
    else if q.op == "remove" then RemoveReq(q.pkg)
    else if q.op == "launch" then LaunchReq(q.pkg, q.staged, q.admitted)
    else Other
  }

  /** One request: nothing changes when it repeats the signature of the one before. */
  function Receive(repo: Repo, s: (Daemon, string), q: Raw): (Daemon, string)
    requires ValidRepo(repo)
  {
    if Signature(q) == s.1 then s else (Serve(repo, s.0, Parse(q)).0, Signature(q))
  }

  /** The answer to it; a repeated request only gets the last one replayed. */
  function Reply(repo: Repo, s: (Daemon, string), q: Raw): Option<Answer>
    requires ValidRepo(repo)
  {
    if Signature(q) == s.1 then None else Some(Serve(repo, s.0, Parse(q)).1)
  }

  function ReceiveAll(repo: Repo, roots: seq<Name>, qs: seq<Raw>): (Daemon, string)
    requires ValidRepo(repo)
  {
    if qs == [] then (Boot(repo, roots), "")
    else Receive(repo, ReceiveAll(repo, roots, qs[..|qs| - 1]), qs[|qs| - 1])
  }

  function LastSignature(qs: seq<Raw>): string {
    if qs == [] then "" else Signature(qs[|qs| - 1])
  }

  /** The requests that do not repeat their predecessor. */
  function Fresh(qs: seq<Raw>): seq<Request> {
    if qs == [] then [] else
      var init, last := qs[..|qs| - 1], qs[|qs| - 1];
      if Signature(last) == LastSignature(init) then Fresh(init) else Fresh(init) + [Parse(last)]
  }

  /** Whatever is repeated, the daemon is where the fresh requests alone would have taken it. */
  lemma {:induction false} RepeatsIgnored(repo: Repo, roots: seq<Name>, qs: seq<Raw>)
    requires ValidRepo(repo)
    ensures ReceiveAll(repo, roots, qs) == (History(repo, roots, Fresh(qs)), LastSignature(qs))
    decreases |qs|
  {
    if qs != [] {
      var init, last := qs[..|qs| - 1], qs[|qs| - 1];
      RepeatsIgnored(repo, roots, init);
      if Signature(last) != LastSignature(init) {
        var now := Fresh(init) + [Parse(last)];
        assert now[..|now| - 1] == Fresh(init);
      }
    }
  }

  /** The invariant holds after every stream of requests, and each configuration written is the
      first one or belongs to a fresh request that was carried out. */
  lemma StreamInv(repo: Repo, roots: seq<Name>, qs: seq<Raw>)
    requires ValidRepo(repo) && Honest(repo) && |roots| <= MAX_PACKAGES
    ensures var d := ReceiveAll(repo, roots, qs).0;
      Inv(repo, d) && d.writes == 1 + CarriedOut(repo, roots, Fresh(qs))
  {
    RepeatsIgnored(repo, roots, qs);
    HistoryInv(repo, roots, Fresh(qs));
  }

  // ---- when a signature tells requests apart ------------------------------

  function Whole(q: Raw): string {
    q.op + "|" + q.pkg + "|" + q.serial
  }

  predicate SameFields(p: Raw, q: Raw) {
    p.op == q.op && p.pkg == q.pkg && p.serial == q.serial
  }

  /** No other operation, package and serial share the request's signature. */
  ghost predicate Unmistakable(p: Raw) {
    forall q :: Signature(q) == Signature(p) ==> SameFields(p, q)
  }

  predicate BarFree(s: string) {
    forall i :: 0 <= i < |s| ==> s[i] != '|'
  }

  /** No field has the separator in it, and the signature is shorter than its buffer holds. */
  predicate Clean(q: Raw) {
    BarFree(q.op) && BarFree(q.pkg) && BarFree(q.serial) && |Whole(q)| < MAX_SIGNATURE
  }

  lemma Separators(q: Raw)
    ensures var w, a, b := Whole(q), |q.op|, |q.op| + 1 + |q.pkg|;
      && b < |w| && w[a] == '|' && w[b] == '|'
      && q.op == w[..a] && q.pkg == w[a + 1..b] && q.serial == w[b + 1..]
  {
  }

  lemma OnlySeparators(p: Raw, k: nat)
    requires BarFree(p.op) && BarFree(p.pkg) && BarFree(p.serial) && k < |Whole(p)| && Whole(p)[k] == '|'
    ensures k == |p.op| || k == |p.op| + 1 + |p.pkg|
  {
    WholeAt(p, k);
  }

  lemma WholeAt(p: Raw, k: nat)
    requires k < |Whole(p)|
    ensures var a, b := |p.op|, |p.op| + 1 + |p.pkg|;
      Whole(p)[k] ==
        if k < a then p.op[k] else if k == a then '|'
        else if k < b then p.pkg[k - a - 1] else if k == b then '|' else p.serial[k - b - 1]
  {
  }

  lemma CleanUnmistakable(p: Raw, q: Raw)
    requires Clean(p) && Signature(q) == Signature(p)
    ensures SameFields(p, q)
  {
    assert Whole(q) == Whole(p);
    Separators(p);
    Separators(q);
    OnlySeparators(p, |q.op|);
    OnlySeparators(p, |q.op| + 1 + |q.pkg|);
  }

  lemma Halved(s: string) returns (a: string, b: string)
    requires !BarFree(s)
    ensures s == a + "|" + b
  {
    var i :| 0 <= i < |s| && s[i] == '|';
    a, b := s[..i], s[i + 1..];
  }

  lemma Mistaken(p: Raw, q: Raw)
    requires Whole(q) == Whole(p) || (Whole(p) <= Whole(q) && |Whole(p)| >= MAX_SIGNATURE)
    requires !SameFields(p, q)
    ensures !Unmistakable(p)
  {
    assert |Whole(p)| >= MAX_SIGNATURE ==> Whole(p)[..MAX_SIGNATURE] == Whole(q)[..MAX_SIGNATURE];
    assert Signature(q) == Signature(p);
  }

  /** A request cannot be taken for another if and only if no field has the separator in it and the
      signature is shorter than its buffer holds. */
  lemma SignatureExact(p: Raw)
    ensures Unmistakable(p) <==> Clean(p)
  {
    if Clean(p) {
      forall q | Signature(q) == Signature(p) ensures SameFields(p, q) {
        CleanUnmistakable(p, q);
      }
    } else if !BarFree(p.op) {
      var a, b := Halved(p.op);
      Mistaken(p, p.(op := a, pkg := b, serial := p.pkg + "|" + p.serial));
    } else if !BarFree(p.pkg) {
      var a, b := Halved(p.pkg);
      Mistaken(p, p.(pkg := a, serial := b + "|" + p.serial));
    } else if !BarFree(p.serial) {
      var a, b := Halved(p.serial);
      Mistaken(p, p.(pkg := p.pkg + "|" + a, serial := b));
    } else {
      Mistaken(p, p.(serial := p.serial + "x"));
    }
  }

  // ---- requests as they can be read ---------------------------------------

  const OPERATIONS: seq<string> := ["list", "explain", "install", "remove", "launch"]

  /** The fields fit the strings that hold them. */
  predicate Readable(q: Raw) {
    |q.op| <= 31 && |q.pkg| <= 127 && |q.serial| <= 15
  }

  /** The two places split the text into fields that can be read. */
  predicate Splits(w: string, a: nat, b: nat) {
    && a < b < |w| && w[a] == '|' && w[b] == '|'
    && a <= 31 && b - a - 1 <= 127 && |w| - b - 1 <= 15
  }

  function SplitAt(p: Raw, a: nat, b: nat): Raw
    requires Splits(Whole(p), a, b)
  {
    p.(op := Whole(p)[..a], pkg := Whole(p)[a + 1..b], serial := Whole(p)[b + 1..])
  }

  lemma SplitWhole(p: Raw, a: nat, b: nat)
    requires Splits(Whole(p), a, b)
    ensures Whole(SplitAt(p, a, b)) == Whole(p) && Readable(SplitAt(p, a, b))
  {
    var w := Whole(p);
    assert w == w[..a] + "|" + w[a + 1..b] + "|" + w[b + 1..];
  }

  /** The signature of a known operation is never cut off. */
  lemma KnownFits(p: Raw)
    requires p.op in OPERATIONS && Readable(p)
    ensures |p.op| <= 7 && |Whole(p)| < MAX_SIGNATURE && Signature(p) == Whole(p)
  {
    var i :| 0 <= i < |OPERATIONS| && OPERATIONS[i] == p.op;
  }

  /** Among requests that can be read, one with a known operation can be taken for another if and only
      if its signature can be split at other places than its own into fields that can be read. */
  lemma SignatureReadable(p: Raw)
    requires p.op in OPERATIONS && Readable(p)
    ensures (forall q :: Readable(q) && Signature(q) == Signature(p) ==> SameFields(p, q))
      <==> (forall a, b :: Splits(Whole(p), a, b) ==> a == |p.op| && b == |p.op| + 1 + |p.pkg|)
  {
    var w := Whole(p);
    KnownFits(p);
    Separators(p);
    if forall a, b :: Splits(w, a, b) ==> a == |p.op| && b == |p.op| + 1 + |p.pkg| {
      forall q | Readable(q) && Signature(q) == Signature(p) ensures SameFields(p, q) {
        assert Whole(q) == w;
        Separators(q);
        assert Splits(w, |q.op|, |q.op| + 1 + |q.pkg|);
      }
    }
    if forall q :: Readable(q) && Signature(q) == Signature(p) ==> SameFields(p, q) {
      forall a, b | Splits(w, a, b) ensures a == |p.op| && b == |p.op| + 1 + |p.pkg| {
        SplitWhole(p, a, b);
        assert Signature(SplitAt(p, a, b)) == Signature(p);
      }
    }
  }
}
