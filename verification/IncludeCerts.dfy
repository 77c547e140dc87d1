/**
 * Which certificates the program includes in a signature: the --include-certs option
 * (command_sign.go:133-181).
 */
module IncludeCerts {
  import opened Environment

  /** By its names the certificate at i issued the one before it, and that one says where to fetch it. */
  predicate Fetchable(chain: seq<Certificate>, i: nat)
    requires 0 < i < |chain|
  {
    chain[i].rawSubject == chain[i - 1].rawIssuer && chain[i - 1].issuerUrls != []
  }

  predicate SelfIssued(c: Certificate) {
    c.rawIssuer == c.rawSubject
  }

  /** The first position from i on whose certificate can be fetched, or the end. */
  function CutFrom(chain: seq<Certificate>, i: nat): (k: nat)
    requires i > 0
    ensures k <= |chain| && (i <= |chain| ==> i <= k)
    decreases |chain| - i
  {
    if i >= |chain| then |chain| else if Fetchable(chain, i) then i else CutFrom(chain, i + 1)
  }

  /** chainWithoutRoot. */
  function WithoutRoot(chain: seq<Certificate>): seq<Certificate> {
    if chain == [] || !SelfIssued(chain[|chain| - 1]) then chain else chain[..|chain| - 1]
  }

  function Included(option: int, chain: seq<Certificate>): seq<Certificate> {
    if option < -3 || option == -2 then WithoutRoot(chain)
    else if option == -3 then WithoutRoot(chain[..CutFrom(chain, 1)])
    else if option == -1 || option > |chain| then chain
    else chain[..option]
  }

  /** certsForSignature (command_sign.go:135-162). */
  method CertsForSignature(option: int, chain: seq<Certificate>) returns (r: seq<Certificate>)
    ensures r == Included(option, chain)
  {
    var n := option;
    if n < -3 {
      n := -2;
    }
    if n > |chain| {
      n := |chain|;
    }
    if n == -3 {
      var kept := chain;
      var i := |chain| - 1;
      while i > 0
        invariant -1 <= i < |chain| && (i == -1 ==> chain == [])
        invariant kept == if chain == [] then [] else chain[..CutFrom(chain, i + 1)]
      {
        var issuer, cert := kept[i], kept[i - 1];
        if issuer.rawSubject == cert.rawIssuer && |cert.issuerUrls| > 0 {
          kept := kept[..i];
        }
        i := i - 1;
      }
      return WithoutRoot(kept);
    } else if n == -2 {
      return WithoutRoot(chain);
    } else if n == -1 {
      return chain;
    } else {
      return chain[..n];
    }
  }

  // ---------------------------------------------------------------- what each option keeps

  /** Position j is kept, told from the chain alone. */
  predicate Keeps(option: int, chain: seq<Certificate>, j: nat)
    requires j < |chain|
  {
    if option >= 0 then j < option
    else if option == -1 then true
    else if option == -3 then
      && (forall i :: 0 < i <= j ==> !IssuedAndLocated(chain[i - 1], chain[i]))
      && (chain[j].rawIssuer == chain[j].rawSubject ==>
            j + 1 < |chain| && !IssuedAndLocated(chain[j], chain[j + 1]))
    else chain[j].rawIssuer == chain[j].rawSubject ==> j + 1 < |chain|
  }

  /** `issuer` has the name of the issuer of `c`, and `c` tells addresses to get it from. */
  predicate IssuedAndLocated(c: Certificate, issuer: Certificate) {
    c.rawIssuer == issuer.rawSubject && |c.issuerUrls| > 0
  }

  lemma {:induction false} CutIsFirst(chain: seq<Certificate>, i: nat)
    requires 0 < i <= |chain|
    ensures forall j :: i <= j < CutFrom(chain, i) ==> !Fetchable(chain, j)
    ensures CutFrom(chain, i) < |chain| ==> Fetchable(chain, CutFrom(chain, i))
    decreases |chain| - i
  {
    if i == |chain| {
    } else {
      CutIsFirst(chain, i + 1);
    }
  }

  /** For every option and chain: what is included is the front of the chain, up to the last kept position. */
  lemma IncludedExactly(option: int, chain: seq<Certificate>)
    ensures var r := Included(option, chain);
            && |r| <= |chain| && r == chain[..|r|]
            && forall j :: 0 <= j < |chain| ==> (j < |r| <==> Keeps(option, chain, j))
  {
    if chain != [] {
      CutIsFirst(chain, 1);
      forall i | 0 < i < |chain|
        ensures Fetchable(chain, i) <==> IssuedAndLocated(chain[i - 1], chain[i])
      {
      }
    }
  }

  /**
   * Whether the signing certificate, which comes first, is included: not with 0, and with -2, -3 and
   * anything below not when it is self-issued and nothing above it is kept.
   */
  predicate KeepsLeaf(option: int, chain: seq<Certificate>)
    requires chain != []
  {
    && option != 0
    && (option <= -2 && SelfIssued(chain[0]) ==>
          |chain| > 1 && (option == -3 ==> !Fetchable(chain, 1)))
  }

  lemma LeafIncluded(option: int, chain: seq<Certificate>)
    requires chain != []
    ensures chain[0] in Included(option, chain) <==> KeepsLeaf(option, chain)
  {
    hide Included;
    IncludedExactly(option, chain);
    var r := Included(option, chain);
    assert Keeps(option, chain, 0) <==> KeepsLeaf(option, chain);
    if r != [] {
      assert r[0] == chain[0];
    }
  }
  /** Without addresses -3 does what -2 does: all but the root, for any names. */
  lemma NoAddresses(chain: seq<Certificate>)
    requires forall c :: c in chain ==> c.issuerUrls == []
    ensures Included(-3, chain) == Included(-2, chain)
  {
    forall i | 0 < i < |chain|
      ensures !Fetchable(chain, i)
    {
      assert chain[i - 1] in chain;
    }
    if chain != [] {
      CutIsFirst(chain, 1);
      assert chain[..|chain|] == chain;
    }
  }

  /** With addresses on the first certificate, and its issuer next, -3 keeps that one certificate, or nothing. */
  lemma LeafAddresses(chain: seq<Certificate>)
    requires |chain| > 1 && chain[0].rawIssuer == chain[1].rawSubject && chain[0].issuerUrls != []
    ensures Included(-3, chain) == if chain[0].rawIssuer == chain[0].rawSubject then [] else [chain[0]]
  {
    assert CutFrom(chain, 1) == 1;
  }
}
