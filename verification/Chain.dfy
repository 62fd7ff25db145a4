/** The bounded walk from a signer's certificate to a trusted one. Certificates are their
    octets; `signedBy(c, i)` says that certificate `i` verifies the signature on `c`. */
module Chain {
  import opened Bytes

  type Relation = (Cert, Cert) -> bool

  const DEPTH: nat := 20

  /** The first candidate that verifies the certificate. */
  function FindIssuer(signedBy: Relation, cert: Cert, candidates: seq<Cert>): Option<Cert> {
    if candidates == [] then None
    else if signedBy(cert, candidates[0]) then Some(candidates[0])
    else FindIssuer(signedBy, cert, candidates[1..])
  }

  method FindIssuerIn(signedBy: Relation, cert: Cert, candidates: seq<Cert>) returns (r: Option<Cert>)
    ensures r == FindIssuer(signedBy, cert, candidates)
  {
    assert candidates[0..] == candidates;
    for i := 0 to |candidates|
      invariant FindIssuer(signedBy, cert, candidates) == FindIssuer(signedBy, cert, candidates[i..])
    {
      if signedBy(cert, candidates[i]) {
        return Some(candidates[i]);
      }
      assert candidates[i..][1..] == candidates[i + 1..];
    }
    return None;
  }

  /** The walk with `steps` iterations left. The issuer found verifies the certificate, so
      the second verification the code makes cannot fail. */
  function Walk(signedBy: Relation, current: Cert, visited: set<Cert>, all: seq<Cert>, cas: seq<Cert>, steps: nat): bool
    decreases steps
  {
    if steps == 0 || current in visited then false
    else if current in cas then true
    else if signedBy(current, current) then false
    else
      match FindIssuer(signedBy, current, all)
      case None => false
      case Some(issuer) => Walk(signedBy, issuer, visited + {current}, all, cas, steps - 1)
  }

  function Trusted(signedBy: Relation, signer: Cert, bag: seq<Cert>, cas: seq<Cert>): bool {
    Walk(signedBy, signer, {}, bag + cas, cas, DEPTH)
  }

  method VerifyChainToCa(signedBy: Relation, signer: Cert, bag: seq<Cert>, cas: seq<Cert>) returns (ok: bool)
    ensures ok == Trusted(signedBy, signer, bag, cas)
  {
    var all := bag + cas;
    var current, visited := signer, {};
    for step := 0 to DEPTH
      invariant Trusted(signedBy, signer, bag, cas) == Walk(signedBy, current, visited, all, cas, DEPTH - step)
    {
      if current in visited {
        break;
      }
      ghost var seen := visited;
      visited := visited + {current};
      if current in cas {
        return true;
      }
      if signedBy(current, current) {
        return current in cas;
      }
      var issuer := FindIssuerIn(signedBy, current, all);
      if issuer.None? {
        return false;
      }
      FindIssuerVerifies(signedBy, current, all);
      if !signedBy(current, issuer.value) {
        return false;
      }
      current := issuer.value;
    }
    return false;
  }

  lemma {:induction false} FindIssuerVerifies(signedBy: Relation, cert: Cert, candidates: seq<Cert>)
    ensures var r := FindIssuer(signedBy, cert, candidates);
      && (r.Some? ==> r.value in candidates && signedBy(cert, r.value))
      && (r.None? ==> forall c :: c in candidates ==> !signedBy(cert, c))
  {
    if candidates != [] {
      FindIssuerVerifies(signedBy, cert, candidates[1..]);
    }
  }

  // ------------------------------------------------------------------------------- paths

  /** A path along `link` from its first certificate to a trusted one. */
  ghost predicate PathVia(link: Relation, path: seq<Cert>, cas: seq<Cert>) {
    && |path| > 0
    && path[|path| - 1] in cas
    && forall i :: 0 <= i < |path| - 1 ==> Linked(link, path, i)
  }

  ghost predicate Linked(link: Relation, path: seq<Cert>, i: nat)
    requires i + 1 < |path|
  {
    link(path[i], path[i + 1])
  }

  /** The issuer is a candidate that verifies the certificate. */
  function Issues(signedBy: Relation, all: seq<Cert>): Relation {
    (c: Cert, i: Cert) => signedBy(c, i) && i in all
  }

  /** The issuer verifies the certificate, and no candidate before it does. */
  predicate IsFirstIssuer(signedBy: Relation, cert: Cert, issuer: Cert, all: seq<Cert>) {
    exists k :: 0 <= k < |all| && all[k] == issuer && signedBy(cert, all[k])
      && forall j :: 0 <= j < k ==> !signedBy(cert, all[j])
  }

  /** The issuer is the first such candidate, and the certificate does not verify itself. */
  function Picks(signedBy: Relation, all: seq<Cert>): Relation {
    (c: Cert, i: Cert) => IsFirstIssuer(signedBy, c, i, all) && !signedBy(c, c)
  }

  lemma {:induction false} FindsFirst(signedBy: Relation, cert: Cert, issuer: Cert, all: seq<Cert>)
    ensures FindIssuer(signedBy, cert, all) == Some(issuer) <==> IsFirstIssuer(signedBy, cert, issuer, all)
  {
    if all != [] && !signedBy(cert, all[0]) {
      var rest := all[1..];
      FindsFirst(signedBy, cert, issuer, rest);
      if IsFirstIssuer(signedBy, cert, issuer, rest) {
        var k :| 0 <= k < |rest| && rest[k] == issuer && signedBy(cert, rest[k])
          && forall j :: 0 <= j < k ==> !signedBy(cert, rest[j]);
        assert all[k + 1] == issuer && forall j :: 0 <= j < k + 1 ==> !signedBy(cert, all[j]) by {
          forall j | 0 <= j < k + 1 ensures !signedBy(cert, all[j]) {
            if j > 0 { assert all[j] == rest[j - 1]; }
          }
        }
      }
      if IsFirstIssuer(signedBy, cert, issuer, all) {
        var k :| 0 <= k < |all| && all[k] == issuer && signedBy(cert, all[k])
          && forall j :: 0 <= j < k ==> !signedBy(cert, all[j]);
        assert rest[k - 1] == issuer && forall j :: 0 <= j < k - 1 ==> !signedBy(cert, rest[j]) by {
          forall j | 0 <= j < k - 1 ensures !signedBy(cert, rest[j]) {
            assert rest[j] == all[j + 1];
          }
        }
      }
    }
  }

  /** Each link is verified by the next, and every issuer is a candidate. */
  ghost predicate IsPath(signedBy: Relation, path: seq<Cert>, all: seq<Cert>, cas: seq<Cert>) {
    PathVia(Issues(signedBy, all), path, cas)
  }

  /** Each link goes to the first verifying candidate, from a certificate that is not self-signed. */
  ghost predicate IsGreedyPath(signedBy: Relation, path: seq<Cert>, all: seq<Cert>, cas: seq<Cert>) {
    PathVia(Picks(signedBy, all), path, cas)
  }

  lemma Suffix(link: Relation, path: seq<Cert>, cas: seq<Cert>)
    requires PathVia(link, path, cas) && |path| > 1
    ensures PathVia(link, path[1..], cas)
  {
    var tail := path[1..];
    forall i | 0 <= i < |tail| - 1 ensures Linked(link, tail, i) {
      assert Linked(link, path, i + 1);
    }
  }

  /** Cutting out a repetition keeps it a path. */
  lemma CutLoop(link: Relation, path: seq<Cert>, cas: seq<Cert>, i: nat, j: nat) returns (short: seq<Cert>)
    requires PathVia(link, path, cas) && i < j < |path| && path[i] == path[j]
    ensures PathVia(link, short, cas) && short[0] == path[0] && |short| < |path|
  {
    short := path[..i] + path[j..];
    forall k | 0 <= k < |short| - 1 ensures Linked(link, short, k) {
      if k + 1 <= i {
        assert Linked(link, path, k);
      } else {
        assert Linked(link, path, k - i + j);
      }
    }
  }

  lemma {:induction false} MakeDistinct(link: Relation, path: seq<Cert>, cas: seq<Cert>) returns (short: seq<Cert>)
    requires PathVia(link, path, cas)
    ensures PathVia(link, short, cas) && short[0] == path[0] && |short| <= |path| && Distinct(short)
    decreases |path|
  {
    if Distinct(path) {
      short := path;
    } else {
      var i: nat, j: nat :| i < j < |path| && path[i] == path[j];
      short := CutLoop(link, path, cas, i, j);
      short := MakeDistinct(link, short, cas);
    }
  }

  lemma GreedyIsPath(signedBy: Relation, path: seq<Cert>, all: seq<Cert>, cas: seq<Cert>)
    requires IsGreedyPath(signedBy, path, all, cas)
    ensures IsPath(signedBy, path, all, cas)
  {
    forall i | 0 <= i < |path| - 1 ensures Linked(Issues(signedBy, all), path, i) {
      assert Linked(Picks(signedBy, all), path, i);
      assert IsFirstIssuer(signedBy, path[i], path[i + 1], all);
    }
  }

  // ------------------------------------------------------------- soundness and completeness

  /** Acceptance comes with a greedy path of pairwise distinct certificates, with fewer links
      than the walk had iterations. */
  lemma {:induction false} WalkIsSound(signedBy: Relation, current: Cert, visited: set<Cert>, all: seq<Cert>,
      cas: seq<Cert>, steps: nat)
    returns (path: seq<Cert>)
    requires Walk(signedBy, current, visited, all, cas, steps)
    ensures IsGreedyPath(signedBy, path, all, cas) && path[0] == current && |path| <= steps
    ensures Distinct(path) && forall c :: c in path ==> c !in visited
    decreases steps
  {
    if current in cas {
      path := [current];
    } else {
      var issuer := FindIssuer(signedBy, current, all).value;
      var rest := WalkIsSound(signedBy, issuer, visited + {current}, all, cas, steps - 1);
      path := [current] + rest;
      var link := Picks(signedBy, all);
      FindsFirst(signedBy, current, issuer, all);
      forall i | 0 <= i < |path| - 1 ensures Linked(link, path, i) {
        if i > 0 { assert Linked(link, rest, i - 1); }
      }
      forall i, j | 0 <= i < j < |path| ensures path[i] != path[j] {
        assert path[j] == rest[j - 1] && path[j] in rest;
        if i > 0 { assert path[i] == rest[i - 1]; }
      }
    }
  }

  /** The walk follows any greedy path without repetitions to its end. */
  lemma {:induction false} WalkFollows(signedBy: Relation, path: seq<Cert>, visited: set<Cert>, all: seq<Cert>,
      cas: seq<Cert>, steps: nat)
    requires IsGreedyPath(signedBy, path, all, cas) && Distinct(path)
    requires |path| <= steps && (forall c :: c in path ==> c !in visited)
    ensures Walk(signedBy, path[0], visited, all, cas, steps)
    decreases |path|
  {
    var current := path[0];
    if current !in cas {
      assert |path| > 1;
      assert Linked(Picks(signedBy, all), path, 0);
      FindsFirst(signedBy, current, path[1], all);
      Suffix(Picks(signedBy, all), path, cas);
      var rest := path[1..];
      forall c | c in rest ensures c !in visited + {current} {
        var k :| 0 <= k < |rest| && rest[k] == c;
        assert c == path[k + 1] && c in path && path[0] != path[k + 1];
      }
      WalkFollows(signedBy, rest, visited + {current}, all, cas, steps - 1);
    }
  }

  /** For every relation and every set of candidates: the walk, visited set and depth limit
      included, accepts exactly when the greedy path from the signer reaches a trusted
      certificate in at most 19 links. */
  lemma WalkIsGreedy(signedBy: Relation, signer: Cert, bag: seq<Cert>, cas: seq<Cert>)
    ensures Trusted(signedBy, signer, bag, cas) <==>
      exists path :: IsGreedyPath(signedBy, path, bag + cas, cas) && path[0] == signer && |path| <= 20
  {
    var all := bag + cas;
    if Trusted(signedBy, signer, bag, cas) {
      var path := WalkIsSound(signedBy, signer, {}, all, cas, DEPTH);
    }
    if path :| IsGreedyPath(signedBy, path, all, cas) && path[0] == signer && |path| <= 20 {
      var short := MakeDistinct(Picks(signedBy, all), path, cas);
      WalkFollows(signedBy, short, {}, all, cas, DEPTH);
    }
  }

  lemma ChainSoundness(signedBy: Relation, signer: Cert, bag: seq<Cert>, cas: seq<Cert>) returns (path: seq<Cert>)
    requires Trusted(signedBy, signer, bag, cas)
    ensures IsPath(signedBy, path, bag + cas, cas) && Distinct(path)
    ensures path[0] == signer && |path| - 1 <= 19
  {
    path := WalkIsSound(signedBy, signer, {}, bag + cas, cas, DEPTH);
    GreedyIsPath(signedBy, path, bag + cas, cas);
  }

  /** Of the signer and the candidates, each has at most one verifying candidate, up to
      equality of octets. */
  ghost predicate UniqueIssuers(signedBy: Relation, signer: Cert, all: seq<Cert>) {
    forall c, i, j ::
      (c == signer || c in all) && i in all && j in all && signedBy(c, i) && signedBy(c, j) ==> i == j
  }

  /** The signer is a candidate itself, or at least does not verify itself. */
  predicate Anchored(signedBy: Relation, signer: Cert, all: seq<Cert>) {
    signer in all || !signedBy(signer, signer)
  }

  /** With unique issuers, any path without repetitions is the greedy one. */
  lemma UniquePathIsGreedy(signedBy: Relation, path: seq<Cert>, all: seq<Cert>, cas: seq<Cert>)
    requires IsPath(signedBy, path, all, cas) && Distinct(path)
    requires UniqueIssuers(signedBy, path[0], all) && Anchored(signedBy, path[0], all)
    ensures IsGreedyPath(signedBy, path, all, cas)
  {
    forall i | 0 <= i < |path| - 1 ensures Linked(Picks(signedBy, all), path, i) {
      assert Linked(Issues(signedBy, all), path, i);
      assert i > 0 ==> Linked(Issues(signedBy, all), path, i - 1);
      FindIssuerVerifies(signedBy, path[i], all);
      FindsFirst(signedBy, path[i], path[i + 1], all);
      assert path[i] != path[i + 1];
    }
  }

  /** With unique issuers the walk accepts exactly the signers that are candidates or do not
      verify themselves, and from which a trusted certificate is reachable in at most 19 links. */
  lemma ChainIsExact(signedBy: Relation, signer: Cert, bag: seq<Cert>, cas: seq<Cert>)
    requires UniqueIssuers(signedBy, signer, bag + cas)
    ensures Trusted(signedBy, signer, bag, cas) <==>
      && Anchored(signedBy, signer, bag + cas)
      && exists path :: IsPath(signedBy, path, bag + cas, cas) && path[0] == signer && |path| <= 20
  {
    var all := bag + cas;
    if Trusted(signedBy, signer, bag, cas) {
      var path := ChainSoundness(signedBy, signer, bag, cas);
    }
    if Anchored(signedBy, signer, all) {
      if path :| IsPath(signedBy, path, all, cas) && path[0] == signer && |path| <= 20 {
        var short := MakeDistinct(Issues(signedBy, all), path, cas);
        UniquePathIsGreedy(signedBy, short, all, cas);
        WalkFollows(signedBy, short, {}, all, cas, DEPTH);
      }
    }
  }

  // ------------------------------------------------------------------------ monotonicity

  lemma {:induction false} FindIssuerPrefix(signedBy: Relation, cert: Cert, candidates: seq<Cert>, more: seq<Cert>)
    requires FindIssuer(signedBy, cert, candidates).Some?
    ensures FindIssuer(signedBy, cert, candidates + more) == FindIssuer(signedBy, cert, candidates)
  {
    if !signedBy(cert, candidates[0]) {
      FindIssuerPrefix(signedBy, cert, candidates[1..], more);
      assert (candidates + more)[1..] == candidates[1..] + more;
    }
  }

  lemma {:induction false} WalkIsMonotone(signedBy: Relation, current: Cert, visited: set<Cert>, all: seq<Cert>,
      cas: seq<Cert>, more: seq<Cert>, steps: nat)
    requires Walk(signedBy, current, visited, all, cas, steps)
    ensures Walk(signedBy, current, visited, all + more, cas + more, steps)
    decreases steps
  {
    if current !in cas && current !in more {
      FindIssuerPrefix(signedBy, current, all, more);
      var issuer := FindIssuer(signedBy, current, all).value;
      WalkIsMonotone(signedBy, issuer, visited + {current}, all, cas, more, steps - 1);
    }
  }

  /** Trusting more authorities, appended at the end, never turns acceptance into rejection. */
  lemma MoreAuthoritiesNeverReject(signedBy: Relation, signer: Cert, bag: seq<Cert>, cas: seq<Cert>, more: seq<Cert>)
    requires Trusted(signedBy, signer, bag, cas)
    ensures Trusted(signedBy, signer, bag, cas + more)
  {
    WalkIsMonotone(signedBy, signer, {}, bag + cas, cas, more, DEPTH);
    assert bag + cas + more == bag + (cas + more);
  }

  // ----------------------------------------------------------------------- a larger bag

  /** The second list is searched only when the first holds no issuer. */
  lemma {:induction false} FindIssuerConcat(signedBy: Relation, cert: Cert, first: seq<Cert>, second: seq<Cert>)
    ensures FindIssuer(signedBy, cert, first + second) ==
      var found := FindIssuer(signedBy, cert, first); if found.Some? then found else FindIssuer(signedBy, cert, second)
  {
    if first == [] {
      assert first + second == second;
    } else if !signedBy(cert, first[0]) {
      FindIssuerConcat(signedBy, cert, first[1..], second);
      assert (first + second)[1..] == first[1..] + second;
    }
  }

  /** What is added issues nothing, of the signer and the candidates, that the bag does not issue. */
  predicate AddsNoIssuer(signedBy: Relation, signer: Cert, bag: seq<Cert>, more: seq<Cert>, cas: seq<Cert>) {
    forall c :: c in [signer] + bag + cas ==>
      FindIssuer(signedBy, c, bag).Some? || FindIssuer(signedBy, c, more).None?
  }

  lemma {:induction false} WalkIgnoresMore(signedBy: Relation, current: Cert, visited: set<Cert>, bag: seq<Cert>,
      more: seq<Cert>, cas: seq<Cert>, steps: nat)
    requires AddsNoIssuer(signedBy, current, bag, more, cas)
    ensures Walk(signedBy, current, visited, bag + more + cas, cas, steps)
         == Walk(signedBy, current, visited, bag + cas, cas, steps)
    decreases steps
  {
    if steps > 0 && current !in visited && current !in cas && !signedBy(current, current) {
      assert current in [current] + bag + cas;
      FindIssuerConcat(signedBy, current, bag, more);
      FindIssuerConcat(signedBy, current, bag + more, cas);
      FindIssuerConcat(signedBy, current, bag, cas);
      FindIssuerVerifies(signedBy, current, bag + cas);
      match FindIssuer(signedBy, current, bag + cas) {
        case None =>
        case Some(issuer) =>
          assert forall c :: c in [issuer] + bag + cas ==> c in [current] + bag + cas;
          WalkIgnoresMore(signedBy, issuer, visited + {current}, bag, more, cas, steps - 1);
      }
    }
  }

  /** A larger bag leaves the verdict alone when what is added issues nothing new: a caller can
      check this on the signer and the candidates beforehand. */
  lemma MoreBagSameVerdict(signedBy: Relation, signer: Cert, bag: seq<Cert>, more: seq<Cert>, cas: seq<Cert>)
    requires AddsNoIssuer(signedBy, signer, bag, more, cas)
    ensures Trusted(signedBy, signer, bag + more, cas) == Trusted(signedBy, signer, bag, cas)
  {
    WalkIgnoresMore(signedBy, signer, {}, bag, more, cas, DEPTH);
  }

  /** It never rejects where issuers stay unique. */
  lemma MoreBagNeverRejects(signedBy: Relation, signer: Cert, bag: seq<Cert>, more: seq<Cert>, cas: seq<Cert>)
    requires UniqueIssuers(signedBy, signer, bag + more + cas) && Trusted(signedBy, signer, bag, cas)
    ensures Trusted(signedBy, signer, bag + more, cas)
  {
    var all := bag + more + cas;
    assert forall c :: c in bag + cas ==> c in all;
    var path := ChainSoundness(signedBy, signer, bag, cas);
    forall i | 0 <= i < |path| - 1 ensures Linked(Issues(signedBy, all), path, i) {
      assert Linked(Issues(signedBy, bag + cas), path, i);
    }
    ChainIsExact(signedBy, signer, bag, cas);
    ChainIsExact(signedBy, signer, bag + more, cas);
  }

  /** Otherwise it can: a certificate added there can draw the walk away from the authority. */
  lemma MoreBagCanReject(signer: Cert, ca: Cert, stray: Cert) returns (signedBy: Relation)
    requires signer != ca && signer != stray && ca != stray
    ensures Trusted(signedBy, signer, [], [ca])
    ensures !Trusted(signedBy, signer, [stray], [ca])
  {
    signedBy := (c: Cert, i: Cert) => c == signer && (i == ca || i == stray);
    assert FindIssuer(signedBy, signer, [] + [ca]) == Some(ca);
    assert FindIssuer(signedBy, signer, [stray] + [ca]) == Some(stray);
    FindIssuerVerifies(signedBy, stray, [stray] + [ca]);
    assert FindIssuer(signedBy, stray, [stray] + [ca]) == None;
    assert !Walk(signedBy, stray, {} + {signer}, [stray] + [ca], [ca], 19);
  }
}
