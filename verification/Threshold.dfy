/** Pairwise-additive 2-of-3 threshold signing. The exponent is split over every pair of
    operators; two partial powers multiply to the signature of the plain signer. */
module Threshold {
  import opened Wrappers
  import opened Modular
  import opened Bytes
  import opened Rsa
  import Rsabssa

  /** The source's one exception, told apart by where it is raised. */
  datatype ThresholdError =
    | BadThreshold
    | BadParties
    | UnknownPartner
    | OutOfRange
    | BadQuorum
    | SelfCheckFailed

  /** An operator's name. */
  datatype Party = Party(name: string)

  /** `blinded_msg: bytes | int`. */
  datatype Message = Raw(bytes: Bytes) | Residue(value: int)

  function Representative(msg: Message, n: nat): (r: Result<nat, ThresholdError>)
    ensures r.Ok? ==> r.value < n
  {
    var m := match msg case Raw(b) => Os2ip(b) case Residue(v) => v;
    if 0 <= m < n then Ok(m) else Err(OutOfRange)
  }

  /** One operator's shares, one per partner. */
  datatype ShareBundle = ShareBundle(party: Party, n: nat, e: nat, partners: map<Party, nat>) {
    /** The operator's partial power; `z` is its own invertible blinding draw. */
    function PartialSign(msg: Message, partner: Party, z: nat): Result<nat, ThresholdError>
      requires n > 1 && Gcd(z, n) == 1
    {
      if partner !in partners then Err(UnknownPartner)
      else
        var m := Representative(msg, n);
        if m.Err? then Err(m.error)
        else
          var share := partners[partner];
          CorrectionIsUnit(n, e, share, z);
          var raw := PowMod((m.value * PowMod(z, e, n)) % n, share, n);
          var correction := PowMod(z, e * share, n);
          Ok((raw * ModInv(correction, n).value) % n)
    }
  }

  datatype ThresholdDeal = ThresholdDeal(n: nat, e: nat, threshold: int, parties: seq<Party>,
                                         bundles: map<Party, ShareBundle>)

  lemma CorrectionIsUnit(n: nat, e: nat, share: nat, z: nat)
    requires n > 1 && Gcd(z, n) == 1
    ensures e * share >= 0
    ensures Gcd(PowMod(z, e * share, n), n) == 1
  {
    MulMonotone(e, 0, share);
    PowerOfUnit(z, e * share, n);
    ModKeepsUnit(Pow(z, e * share), n);
  }

  /** The correction divides the operator's blinding out of the power exactly. */
  lemma PartialIsPower(bundle: ShareBundle, msg: Message, partner: Party, z: nat)
    requires bundle.n > 1 && Gcd(z, bundle.n) == 1
    requires partner in bundle.partners && Representative(msg, bundle.n).Ok?
    ensures bundle.PartialSign(msg, partner, z)
         == Ok(PowMod(Representative(msg, bundle.n).value, bundle.partners[partner], bundle.n))
  {
    var n, e, m, share := bundle.n, bundle.e, Representative(msg, bundle.n).value, bundle.partners[partner];
    CorrectionIsUnit(n, e, share, z);
    var c := PowMod(z, e * share, n);
    var i := ModInv(c, n).value;
    BlindedPower(n, e, m, share, z);
    CongMul(PowMod((m * PowMod(z, e, n)) % n, share, n), c * PowMod(m, share, n), i, i, n);
    UndoUnit(c, i, PowMod(m, share, n), n);
    SmallMod(PowMod(m, share, n), n);
  }

  lemma BlindedPower(n: nat, e: nat, m: nat, share: nat, z: nat)
    requires n > 1
    ensures e * share >= 0
    ensures PowMod((m * PowMod(z, e, n)) % n, share, n) % n == (PowMod(z, e * share, n) * PowMod(m, share, n)) % n
  {
    var y := PowMod(z, e, n);
    ModMod(m * y, n);
    CongPow((m * y) % n, m * y, share, n);
    PowProduct(m, y, share);
    NestedPower(z, e, share, n);
    MulModMod(Pow(m, share), Pow(y, share), n);
    assert Pow(y, share) % n == PowMod(z, e * share, n);
    assert Pow(m, share) % n * (Pow(y, share) % n) == PowMod(z, e * share, n) * PowMod(m, share, n);
    ModMod(Pow((m * y) % n, share), n);
  }

  /** The combiner: multiply two partials, whatever integers they are, and check the result. */
  function Combine(n: nat, e: nat, m: nat, left: int, right: int): Result<Bytes, ThresholdError>
    requires n > 0
  {
    var s := (left * right) % n;
    if PowMod(s, e, n) != m % n then Err(SelfCheckFailed) else Ok(Rsabssa.ToBytes(s, n))
  }

  function BlindSignThresholded(deal: ThresholdDeal, left: Party, right: Party, msg: Message,
                                zLeft: nat, zRight: nat): Result<Bytes, ThresholdError>
    requires deal.n > 1 && Gcd(zLeft, deal.n) == 1 && Gcd(zRight, deal.n) == 1
    requires forall name :: name in deal.bundles ==> deal.bundles[name].n == deal.n
  {
    if left == right || left !in deal.bundles || right !in deal.bundles then Err(BadQuorum)
    else
      var m := Representative(msg, deal.n);
      if m.Err? then Err(m.error)
      else
        var l := deal.bundles[left].PartialSign(Residue(m.value), right, zLeft);
        var r := deal.bundles[right].PartialSign(Residue(m.value), left, zRight);
        if l.Err? then Err(l.error)
        else if r.Err? then Err(r.error)
        else Combine(deal.n, deal.e, m.value, l.value, r.value)
  }

  // ---------------------------------------------------------------- dealing

  predicate Distinct(parties: seq<Party>) {
    forall i, j :: 0 <= i < j < |parties| ==> parties[i] != parties[j]
  }

  /** Two shares of one exponent: their sum is positive and congruent to it. */
  ghost predicate SplitOf(key: PrivateKey, r: nat, s: nat)
    requires key.Valid()
  {
    r + s > 0 && (r + s) % key.Lambda() == key.d % key.Lambda()
  }

  /** A complete deal: every party has a share towards each of the others, and nobody else. */
  ghost predicate WellDealt(deal: ThresholdDeal, key: PrivateKey)
    requires key.Valid()
  {
    && deal.n == key.N() && deal.e == key.e
    && deal.bundles.Keys == (set x | x in deal.parties)
    && (forall a :: a in deal.bundles ==>
         var bundle := deal.bundles[a];
         bundle.n == key.N() && bundle.e == key.e && bundle.partners.Keys == deal.bundles.Keys - {a})
    && (forall a, b :: a in deal.bundles && b in deal.bundles && a != b ==>
         SplitOf(key, deal.bundles[a].partners[b], deal.bundles[b].partners[a]))
  }

  /** The dealer's exponent is the signing exponent up to multiples of lambda. */
  lemma DealerExponent(key: PrivateKey)
    requires key.Valid()
    ensures key.Lambda() > 1 && ModInv(key.e, key.Lambda()).Some?
    ensures 0 < ModInv(key.e, key.Lambda()).value < key.Lambda()
    ensures ModInv(key.e, key.Lambda()).value == key.d % key.Lambda()
  {
    KeyFacts(key);
    var lambda := key.Lambda();
    UnitHasGcdOne(key.e, lambda, key.d);
    var d := ModInv(key.e, lambda).value;
    CancelUnit(key.e, d, key.d, lambda);
    SmallMod(d, lambda);
  }

  /** Reducing `d - r` keeps the sum congruent to `d` and positive: it is `d` or `d + lambda`. */
  lemma SplitSums(d: nat, r: nat, lambda: nat)
    requires 0 < d < lambda && r < lambda
    ensures r + (d - r) % lambda == (if r <= d then d else d + lambda)
    ensures (r + (d - r) % lambda) % lambda == d
  {
    if r <= d {
      SmallMod(d - r, lambda);
    } else {
      ModUnique(d - r, lambda, -1, d - r + lambda);
    }
    ModUnique(d, lambda, 0, d);
    ModUnique(d + lambda, lambda, 1, d);
  }

  type Shares = map<Party, map<Party, nat>>

  /** `shares[holder][partner] = share`. */
  function WithShare(shares: Shares, holder: Party, partner: Party, share: nat): Shares
    requires holder in shares
  {
    var partners: map<Party, nat> := shares[holder][partner := share];
    shares[holder := partners]
  }

  /** The pairs `itertools.combinations` yields for three parties, in its order. */
  function Pairs(parties: seq<Party>): seq<(Party, Party)>
    requires |parties| == 3
  {
    [(parties[0], parties[1]), (parties[0], parties[2]), (parties[1], parties[2])]
  }

  predicate Paired(done: seq<(Party, Party)>, a: Party, b: Party) {
    (a, b) in done || (b, a) in done
  }

  /** The three pairs are all the pairs of different parties. */
  lemma PairsCover(parties: seq<Party>, a: Party, b: Party)
    requires |parties| == 3 && Distinct(parties)
    ensures Paired(Pairs(parties), a, b) <==> a in parties && b in parties && a != b
  {
    var x, y, z := parties[0], parties[1], parties[2];
    assert x != y && x != z && y != z;
    assert forall p :: p in parties <==> p == x || p == y || p == z;
    var pairs := Pairs(parties);
    assert pairs[0] == (x, y) && pairs[1] == (x, z) && pairs[2] == (y, z);
  }

  /** The share that completes a drawn one. */
  function RestOf(d: int, lambda: nat, drawn: nat): nat
    requires lambda > 0
  {
    (d - drawn) % lambda
  }

  /** The first of a pair holds what was drawn, and nothing of the key; the second holds the rest. */
  predicate Drawn(shares: Shares, pair: (Party, Party), drawn: nat, rest: nat) {
    && pair.0 in shares && pair.1 in shares[pair.0] && shares[pair.0][pair.1] == drawn
    && pair.1 in shares && pair.0 in shares[pair.1] && shares[pair.1][pair.0] == rest
  }

  /** Pairs of different parties, none of which comes twice, in either order. */
  ghost predicate Apart(pairs: seq<(Party, Party)>) {
    && (forall i :: 0 <= i < |pairs| ==> pairs[i].0 != pairs[i].1)
    && forall i, j :: 0 <= i < |pairs| && 0 <= j < |pairs| && i != j ==>
         pairs[i] != pairs[j] && (pairs[i].1, pairs[i].0) != pairs[j]
  }

  /** Exactly the pairs done have shares. */
  ghost predicate SharesOf(shares: Shares, names: set<Party>, done: seq<(Party, Party)>) {
    shares.Keys == names && forall a, b :: a in shares ==> (b in shares[a] <==> Paired(done, a, b))
  }

  /** The state of the dealing loop after `i` pairs: exactly those pairs have shares, the drawn ones. */
  ghost predicate DealtSoFar(d: int, lambda: nat, names: set<Party>, pairs: seq<(Party, Party)>, draws: seq<nat>,
                             shares: Shares, i: int)
    requires lambda > 0 && 0 <= i <= |pairs| <= |draws|
  {
    && SharesOf(shares, names, pairs[..i])
    && forall j :: 0 <= j < i ==> Drawn(shares, pairs[j], draws[j], RestOf(d, lambda, draws[j]))
  }

  /** The dealer's loop over pairs; `draws` are the values of its random generator. */
  method SplitPairs(d: int, lambda: nat, parties: seq<Party>, draws: seq<nat>) returns (shares: Shares)
    requires lambda > 0 && |parties| == 3 && Distinct(parties) && |draws| >= 3
    ensures DealtSoFar(d, lambda, (set x | x in parties), Pairs(parties), draws, shares, 3)
  {
    shares := map name | name in parties :: map[];
    var pairs := Pairs(parties);
    ghost var names := set x | x in parties;
    PairsApart(parties);
    for i := 0 to |pairs|
      invariant DealtSoFar(d, lambda, names, pairs, draws, shares, i)
    {
      var (left, right) := pairs[i];
      var share := draws[i];
      var rest := RestOf(d, lambda, share);
      DealtStep(d, lambda, names, pairs, draws, shares, i);
      shares := WithShare(shares, left, right, share);
      shares := WithShare(shares, right, left, rest);
    }
  }

  lemma PairsApart(parties: seq<Party>)
    requires |parties| == 3 && Distinct(parties)
    ensures Apart(Pairs(parties))
    ensures forall i :: 0 <= i < 3 ==> Pairs(parties)[i].0 in parties && Pairs(parties)[i].1 in parties
  {
    assert parties[0] != parties[1] && parties[0] != parties[2] && parties[1] != parties[2];
  }

  /** One pass of the dealing loop. */
  lemma DealtStep(d: int, lambda: nat, names: set<Party>, pairs: seq<(Party, Party)>, draws: seq<nat>,
                  shares: Shares, i: nat)
    requires lambda > 0 && i < |pairs| <= |draws| && Apart(pairs)
    requires pairs[i].0 in names && pairs[i].1 in names
    requires DealtSoFar(d, lambda, names, pairs, draws, shares, i)
    ensures var (left, right) := pairs[i];
      && left in shares && right in shares
      && DealtSoFar(d, lambda, names, pairs, draws,
                    WithShare(WithShare(shares, left, right, draws[i]), right, left, RestOf(d, lambda, draws[i])), i
                        + 1)
  {
    var (left, right) := pairs[i];
    var rest := RestOf(d, lambda, draws[i]);
    var after := WithShare(WithShare(shares, left, right, draws[i]), right, left, rest);
    AddPair(shares, names, pairs[..i], pairs[i], draws[i], rest);
    assert pairs[..i + 1] == pairs[..i] + [pairs[i]];
    forall j | 0 <= j <= i
      ensures Drawn(after, pairs[j], draws[j], RestOf(d, lambda, draws[j]))
    {
      if j < i { KeepPair(shares, pairs[i], draws[i], rest, pairs[j], draws[j], RestOf(d, lambda, draws[j])); }
    }
  }

  lemma KeepPair(shares: Shares, pair: (Party, Party), drawn: nat, rest: nat, other: (Party, Party), drawn': nat,
                 rest': nat)
    requires pair.0 in shares && pair.1 in shares && pair.0 != pair.1
    requires other != pair && (other.1, other.0) != pair && Drawn(shares, other, drawn', rest')
    ensures Drawn(WithShare(WithShare(shares, pair.0, pair.1, drawn), pair.1, pair.0, rest), other, drawn', rest')
  {
  }

  lemma AddPair(shares: Shares, names: set<Party>, done: seq<(Party, Party)>, pair: (Party, Party), drawn: nat,
                rest: nat)
    requires pair.0 in names && pair.1 in names && pair.0 != pair.1 && SharesOf(shares, names, done)
    ensures var after := WithShare(WithShare(shares, pair.0, pair.1, drawn), pair.1, pair.0, rest);
      SharesOf(after, names, done + [pair]) && Drawn(after, pair, drawn, rest)
  {
    forall a, b
      ensures Paired(done + [pair], a, b) <==> Paired(done, a, b) || (a, b) == pair || (b, a) == pair
    {
      assert (a, b) in done + [pair] <==> (a, b) in done || (a, b) == pair;
      assert (b, a) in done + [pair] <==> (b, a) in done || (b, a) == pair;
    }
  }

  /** The dealer: every pair of the parties gets a split of the exponent. */
  method Deal(key: PrivateKey, parties: seq<Party>, threshold: int, draws: seq<nat>)
    returns (r: Result<ThresholdDeal, ThresholdError>)
    requires key.Valid()
    requires |draws| >= 3 && forall i :: 0 <= i < |draws| ==> draws[i] < key.Lambda() / 2
    ensures r.Ok? <==> threshold == 2 && |parties| == 3 && Distinct(parties)
    ensures r.Ok? ==> WellDealt(r.value, key) && r.value.parties == parties && r.value.threshold == threshold
    ensures r.Ok? ==> DealtBy(r.value, key.d, key.Lambda(), draws)
    ensures r.Err? ==> r.error == if threshold != 2 then BadThreshold else BadParties
  {
    if threshold != 2 {
      return Err(BadThreshold);
    }
    if |parties| != 3 || !Distinct(parties) {
      return Err(BadParties);
    }
    var lambda := key.Lambda();
    DealerExponent(key);
    var inverse := ModInv(key.e, lambda);
    var shares := SplitPairs(inverse.value, lambda, parties, draws);
    BundleDealt(key, parties, threshold, shares, draws);
    r := Ok(Bundle(key, parties, threshold, shares));
  }

  /** The deal that hands every party its row of the share table. */
  function Bundle(key: PrivateKey, parties: seq<Party>, threshold: int, shares: Shares): (deal: ThresholdDeal)
    ensures deal.bundles.Keys == shares.Keys
  {
    ThresholdDeal(key.N(), key.e, threshold, parties,
                  map name | name in shares :: ShareBundle(name, key.N(), key.e, shares[name]))
  }

  predicate Holds(deal: ThresholdDeal, holder: Party, partner: Party, share: nat) {
    && holder in deal.bundles && partner in deal.bundles[holder].partners
    && deal.bundles[holder].partners[partner] == share
  }

  /** A deal with these draws, one for each pair in order. */
  ghost predicate DealtBy(deal: ThresholdDeal, d: int, lambda: nat, draws: seq<nat>) {
    && |deal.parties| == 3 && |draws| >= 3 && lambda > 0
    && var (a, b, c) := (deal.parties[0], deal.parties[1], deal.parties[2]);
       && Holds(deal, a, b, draws[0]) && Holds(deal, b, a, RestOf(d, lambda, draws[0]))
       && Holds(deal, a, c, draws[1]) && Holds(deal, c, a, RestOf(d, lambda, draws[1]))
       && Holds(deal, b, c, draws[2]) && Holds(deal, c, b, RestOf(d, lambda, draws[2]))
  }

  /** The dealer's own exponent leaves the same rest as the key's, and the two shares split it. */
  lemma RestSplits(key: PrivateKey, drawn: nat)
    requires key.Valid() && drawn < key.Lambda()
    ensures key.Lambda() > 1 && ModInv(key.e, key.Lambda()).Some?
    ensures var rest := RestOf(key.d, key.Lambda(), drawn);
      && RestOf(ModInv(key.e, key.Lambda()).value, key.Lambda(), drawn) == rest
      && SplitOf(key, drawn, rest) && SplitOf(key, rest, drawn)
  {
    DealerExponent(key);
    var lambda, d := key.Lambda(), key.d;
    var gap := d % lambda - drawn;
    var q, r := gap / lambda, gap % lambda;
    assert d - drawn == lambda * (d / lambda) + lambda * q + r;
    assert lambda * (d / lambda) + lambda * q == lambda * (d / lambda + q);
    ModUnique(d - drawn, lambda, d / lambda + q, r);
    SplitSums(d % lambda, drawn, lambda);
  }

  /** The shares of all pairs are a row for every party towards the other two. */
  lemma RowsComplete(parties: seq<Party>, shares: Shares)
    requires |parties| == 3 && Distinct(parties) && SharesOf(shares, (set x | x in parties), Pairs(parties))
    ensures forall a :: a in shares ==> shares[a].Keys == shares.Keys - {a}
  {
    forall a | a in shares
      ensures shares[a].Keys == shares.Keys - {a}
    {
      forall b
        ensures b in shares[a] <==> b in shares && a != b
      {
        PairsCover(parties, a, b);
      }
    }
  }

  /** All pairs are split. */
  lemma PairsSplit(key: PrivateKey, parties: seq<Party>, shares: Shares, draws: seq<nat>)
    requires key.Valid() && |parties| == 3 && Distinct(parties) && |draws| >= 3
    requires shares.Keys == (set x | x in parties)
    requires key.Lambda() > 0 && forall j :: 0 <= j < 3 ==> draws[j] < key.Lambda()
    requires forall j :: 0 <= j < 3 ==>
      Drawn(shares, Pairs(parties)[j], draws[j], RestOf(key.d, key.Lambda(), draws[j]))
    ensures forall a, b :: a in shares && b in shares && a != b ==>
      b in shares[a] && a in shares[b] && SplitOf(key, shares[a][b], shares[b][a])
  {
    var pairs := Pairs(parties);
    forall a, b | a in shares && b in shares && a != b
      ensures b in shares[a] && a in shares[b] && SplitOf(key, shares[a][b], shares[b][a])
    {
      PairsCover(parties, a, b);
      var j :| 0 <= j < |pairs| && (pairs[j] == (a, b) || pairs[j] == (b, a));
      RestSplits(key, draws[j]);
      assert Drawn(shares, pairs[j], draws[j], RestOf(key.d, key.Lambda(), draws[j]));
    }
  }

  /** The finished loop's shares, bundled, are a complete deal, with its draws. */
  lemma BundleDealt(key: PrivateKey, parties: seq<Party>, threshold: int, shares: Shares, draws: seq<nat>)
    requires key.Valid() && |parties| == 3 && Distinct(parties)
    requires |draws| >= 3 && forall i :: 0 <= i < |draws| ==> draws[i] < key.Lambda() / 2
    requires key.Lambda() > 0 && ModInv(key.e, key.Lambda()).Some?
    requires DealtSoFar(ModInv(key.e, key.Lambda()).value, key.Lambda(), (set x | x in parties), Pairs(parties), draws,
                        shares, 3)
    ensures WellDealt(Bundle(key, parties, threshold, shares), key)
    ensures DealtBy(Bundle(key, parties, threshold, shares), key.d, key.Lambda(), draws)
  {
    var lambda, pairs := key.Lambda(), Pairs(parties);
    assert pairs[..3] == pairs;
    RowsComplete(parties, shares);
    forall j | 0 <= j < 3
      ensures Drawn(shares, pairs[j], draws[j], RestOf(key.d, lambda, draws[j]))
    {
      RestSplits(key, draws[j]);
    }
    PairsSplit(key, parties, shares, draws);
    assert pairs[0] == (parties[0], parties[1]) && pairs[1] == (parties[0], parties[2]);
    assert pairs[2] == (parties[1], parties[2]);
  }

  // ---------------------------------------------------------------- results

  /** Two shares of the signing exponent multiply to the signature of any residue. */
  lemma SharesMultiply(key: PrivateKey, m: nat, r: nat, s: nat)
    requires key.Valid() && SplitOf(key, r, s)
    ensures key.N() > 1
    ensures (PowMod(m, r, key.N()) * PowMod(m, s, key.N())) % key.N() == PowMod(m, key.d, key.N())
  {
    KeyFacts(key);
    ExponentPositive(key);
    MulModMod(Pow(m, r), Pow(m, s), key.N());
    PowAdd(m, r, s);
    ExponentsAgree(key, m, r + s, key.d);
  }

  /** What any quorum of a well-formed deal returns, for every message, unit or not, and for all
      blinding draws: the root of the representative, and an error only out of range. */
  lemma ThresholdSigns(deal: ThresholdDeal, key: PrivateKey, left: Party, right: Party, msg: Message,
                       zLeft: nat, zRight: nat)
    requires key.Valid() && WellDealt(deal, key) && key.N() > 1
    requires left in deal.parties && right in deal.parties && left != right
    requires Gcd(zLeft, key.N()) == 1 && Gcd(zRight, key.N()) == 1
    ensures BlindSignThresholded(deal, left, right, msg, zLeft, zRight)
         == match Representative(msg, key.N())
            case Ok(m) => Ok(Rsabssa.ToBytes(PowMod(m, key.d, key.N()), key.N()))
            case Err(e) => Err(e)
  {
    var rep := Representative(msg, key.N());
    if rep.Ok? {
      var m := rep.value;
      var l, r := deal.bundles[left], deal.bundles[right];
      PartialIsPower(l, Residue(m), right, zLeft);
      PartialIsPower(r, Residue(m), left, zRight);
      SharesMultiply(key, m, l.partners[right], r.partners[left]);
      RootUnique(key, PowMod(m, key.d, key.N()), m);
      SmallMod(m, key.N());
    }
  }

  /** Only two different parties of the deal are a quorum. */
  lemma QuorumExact(deal: ThresholdDeal, key: PrivateKey, left: Party, right: Party, msg: Message,
                    zLeft: nat, zRight: nat)
    requires key.Valid() && WellDealt(deal, key) && key.N() > 1
    requires Gcd(zLeft, key.N()) == 1 && Gcd(zRight, key.N()) == 1
    ensures BlindSignThresholded(deal, left, right, msg, zLeft, zRight) == Err(BadQuorum)
       <==> left == right || left !in deal.parties || right !in deal.parties
  {
    if left in deal.parties && right in deal.parties && left != right {
      ThresholdSigns(deal, key, left, right, msg, zLeft, zRight);
    }
  }

  /** On byte messages whose representative is in range, the quorum returns exactly what the plain
      signer returns if and only if the message has modulus length: the threshold path does not
      check the length that `blind_sign` insists on. */
  lemma ThresholdRefinesBlindSign(deal: ThresholdDeal, key: PrivateKey, left: Party, right: Party, msg: Bytes,
                                  zLeft: nat, zRight: nat, z: nat)
    requires key.Valid() && WellDealt(deal, key) && key.N() > 1
    requires left in deal.parties && right in deal.parties && left != right
    requires Gcd(zLeft, key.N()) == 1 && Gcd(zRight, key.N()) == 1 && Gcd(z, key.N()) == 1
    requires Os2ip(msg) < key.N()
    ensures var quorum := BlindSignThresholded(deal, left, right, Raw(msg), zLeft, zRight);
      var plain := Rsabssa.SignWith(key, msg, z);
      && quorum.Ok?
      && (plain.Ok? <==> |msg| == Rsabssa.ModulusLen(key.N()))
      && (plain.Ok? ==> quorum.value == plain.value)
  {
    ThresholdSigns(deal, key, left, right, Raw(msg), zLeft, zRight);
    Rsabssa.BlindSignTotal(key, msg, z);
  }

  /** Whatever two operators return as partials, the combiner accepts them exactly when their product
      is the honest signature, and then returns that signature and no other. */
  lemma CombineIsSound(key: PrivateKey, m: nat, left: int, right: int)
    requires key.Valid() && key.N() > 1 && m < key.N()
    ensures var honest := PowMod(m, key.d, key.N());
      Combine(key.N(), key.e, m, left, right)
      == if (left * right) % key.N() == honest then Ok(Rsabssa.ToBytes(honest, key.N())) else Err(SelfCheckFailed)
  {
    RootUnique(key, (left * right) % key.N(), m);
    SmallMod(m, key.N());
  }
}
