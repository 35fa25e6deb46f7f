/** RSA key generation. */
module RsaKeyGen {
  import opened Arithmetic
  import opened NumberTheory
  import opened RsaTheory
  import opened Limbs
  import opened MpiCore
  import opened AddSub
  import opened Mul
  import opened Shift
  import opened Mod
  import opened InverseSteps
  import opened InverseSafety
  import opened GcdInv
  import opened Primality
  import opened Randomness
  import opened Rsa

  /** A number that the primality test let through. */
  ghost predicate Candidate(X: Mpi)
    reads X
  {
    X.s == 1 && X.p != [] && X.Abs() % 2 == 1 && X.Abs() >= 3 && Accepted(X.Value())
  }

  /** The searches in which the two factors of a key were found. */
  datatype Origins = Origins(p: Origin, q: Origin)

  /** Half the bits of the modulus, rounded up. */
  function HalfBits(nbits: nat): (w: nat)
    ensures nbits >= 128 ==> w >= 64
    ensures nbits >= 257 ==> w >= 129
  {
    (nbits + 1) / 2
  }

  /** The generator did not supply zeros only, and no carry was lost where the candidates have at most two limbs. */
  predicate ProperSearches(o: Origins, nbits: nat) {
    o.p.start != 3 && o.q.start != 3 && (nbits >= 257 || (o.p.exact && o.q.exact))
  }

  /** Both factors come from searches for numbers of half the bits of the modulus, and have at least so many bits. */
  ghost predicate FactorsFound(p: nat, q: nat, o: Origins, nbits: nat, rng: Generator) {
    && FoundFrom(p, o.p, HalfBits(nbits), rng) && FoundFrom(q, o.q, HalfBits(nbits), rng)
    && (ProperSearches(o, nbits) ==> FactorsLarge(p, q, HalfBits(nbits)))
  }

  ghost predicate FactorsLarge(p: nat, q: nat, w: nat) {
    w > 0 && p >= Pow(2, w - 1) && q >= Pow(2, w - 1) && BitLen(p) >= w && BitLen(q) >= w
  }

  lemma SearchesFit(p: nat, q: nat, o: Origins, nbits: nat, w: nat, rng: Generator)
    requires FoundFrom(p, o.p, w, rng) && FoundFrom(q, o.q, w, rng) && w == HalfBits(nbits) && nbits >= 128
    ensures FactorsFound(p, q, o, nbits, rng)
  {
    if ProperSearches(o, nbits) {
      FoundSize(p, o.p, w, rng);
      FoundSize(q, o.q, w, rng);
    }
  }

  /** Two candidates, the larger one in P. */
  method PickPrimes(P: Mpi, Q: Mpi, nbits: nat, budget: nat, rng: Generator) returns (done: bool, ghost o: Origins)
    requires P != Q && nbits >= 128
    modifies P, Q, rng`pos
    ensures done ==> Candidate(P) && Candidate(Q) && P.Abs() >= Q.Abs() && FactorsFound(P.Abs(), Q.Abs(), o, nbits, rng)
  {
    var ret;
    ghost var p, q;
    ret, done, p := GenPrime(P, (nbits + 1) / 2, budget, rng);
    o := Origins(p, p);
    if !done { return; }
    ret, done, q := GenPrime(Q, (nbits + 1) / 2, budget, rng);
    if !done { return; }
    o := Origins(p, q);
    var c := CmpMpi(P, Q);
    if c < 0 {
      Swap(P, Q);
      o := Origins(q, p);
    }
    SearchesFit(P.Abs(), Q.Abs(), o, nbits, (nbits + 1) / 2, rng);
  }

  /** P1 = P - 1, Q1 = Q - 1, H = P1 * Q1 and N = P * Q. */
  ghost predicate Products(N: Mpi, P: Mpi, Q: Mpi, P1: Mpi, Q1: Mpi, H: Mpi)
    reads N, P, Q, P1, Q1, H
  {
    && N.s == 1 && N.p != [] && P1.s == 1 && Q1.s == 1 && H.s == 1 && H.p != []
    && N.Abs() == P.Abs() * Q.Abs() && P1.Abs() == P.Abs() - 1 && Q1.Abs() == Q.Abs() - 1
    && H.Abs() == Totient(P.Abs(), Q.Abs())
  }

  lemma ProductGrows(a: int, b: int, x: int, y: int)
    requires 0 < x <= a && 0 < y <= b
    ensures a * b >= x * y
  {
    MulMono(x, a, b);
    MulMono(y, b, x);
  }

  /** P1 = P - 1 and so on. */
  method Predecessors(P: Mpi, Q: Mpi, P1: Mpi, Q1: Mpi, H: Mpi)
    requires P1 !in {P, Q, Q1, H} && Q1 !in {P, Q, H} && H !in {P, Q}
    requires P.s == 1 && Q.s == 1 && P.Abs() >= 3 && Q.Abs() >= 3
    modifies P1, Q1, H
    ensures P1.s == 1 && Q1.s == 1 && H.s == 1 && H.p != []
    ensures P1.Abs() == P.Abs() - 1 && Q1.Abs() == Q.Abs() - 1 && H.Abs() == Totient(P.Abs(), Q.Abs()) >= 4
  {
    var ret := SubInt(P1, P, 1);
    ret := SubInt(Q1, Q, 1);
    ProductGrows(P1.Abs(), Q1.Abs(), 2, 2);
    ret := MulMpi(H, P1, Q1);
  }

  /** The context holds candidates for the primes and their products; the exponent is coprime to H. */
  ghost predicate Chosen(ctx: RsaContext, P1: Mpi, Q1: Mpi, H: Mpi, nbits: nat)
    reads ctx.N, ctx.E, ctx.P, ctx.Q, P1, Q1, H
  {
    && Candidate(ctx.P) && Candidate(ctx.Q) && ctx.P.Abs() > ctx.Q.Abs()
    && Products(ctx.N, ctx.P, ctx.Q, P1, Q1, H) && BitLen(ctx.N.Abs()) == nbits
    && Gcd(ctx.E.Abs(), H.Abs()) == 1
  }

  ghost predicate Scratch(ctx: RsaContext, P1: Mpi, Q1: Mpi, H: Mpi, G: Mpi) {
    var own := {ctx.N, ctx.E, ctx.D, ctx.P, ctx.Q, ctx.DP, ctx.DQ, ctx.QP, ctx.RN, ctx.RP, ctx.RQ};
    ctx.Apart() && P1 !in own && Q1 !in own && H !in own && G !in own && P1 !in {Q1, H, G} && Q1 !in {H, G} && H != G
  }

  /** One pass of the search. The two `continue` branches leave G as it was. */
  method KeyPass(ctx: RsaContext, P1: Mpi, Q1: Mpi, H: Mpi, G: Mpi, nbits: nat, budget: nat, rng: Generator)
    returns (done: bool, ghost o: Origins)
    requires Scratch(ctx, P1, Q1, H, G) && nbits >= 128 && ctx.E.s == 1 && G.s == 1
    modifies ctx.N, ctx.P, ctx.Q, P1, Q1, H, G, rng`pos
    ensures G.s == 1
    ensures done && old(G.Abs()) != 1 && G.Abs() == 1 ==> Chosen(ctx, P1, Q1, H, nbits) && FactorsFound(ctx.P.Abs(), ctx.Q.Abs(), o, nbits, rng)
  {
    done, o := PickPrimes(ctx.P, ctx.Q, nbits, budget, rng);
    if !done { return; }
    TryPrimes(ctx, P1, Q1, H, G, nbits);
  }

  /** The pass behind the choice of the primes. */
  method TryPrimes(ctx: RsaContext, P1: Mpi, Q1: Mpi, H: Mpi, G: Mpi, nbits: nat)
    requires Scratch(ctx, P1, Q1, H, G) && ctx.E.s == 1 && G.s == 1
    requires Candidate(ctx.P) && Candidate(ctx.Q) && ctx.P.Abs() >= ctx.Q.Abs()
    modifies ctx.N, P1, Q1, H, G
    ensures G.s == 1
    ensures old(G.Abs()) != 1 && G.Abs() == 1 ==> Chosen(ctx, P1, Q1, H, nbits)
  {
    var c := CmpMpi(ctx.P, ctx.Q);
    if c == 0 { return; }
    var ret := MulMpi(ctx.N, ctx.P, ctx.Q);
    ProductGrows(ctx.P.Abs(), ctx.Q.Abs(), 3, 3);
    var m := Msb(ctx.N);
    if m != nbits { return; }
    Predecessors(ctx.P, ctx.Q, P1, Q1, H);
    ret := GcdMpi(G, ctx.E, H);
  }

  /** The search loop, with a bound on its passes that the source does not have. A stale G is never 1, so the
      loop ends only with the primes, products and divisor of one and the same pass. */
  method KeySearch(ctx: RsaContext, P1: Mpi, Q1: Mpi, H: Mpi, G: Mpi, nbits: nat, budget: nat, rng: Generator)
    returns (done: bool, ghost o: Origins)
    requires Scratch(ctx, P1, Q1, H, G) && nbits >= 128 && ctx.E.s == 1 && G.s == 1 && G.p == []
    modifies ctx.N, ctx.P, ctx.Q, P1, Q1, H, G, rng`pos
    ensures done ==> Chosen(ctx, P1, Q1, H, nbits) && FactorsFound(ctx.P.Abs(), ctx.Q.Abs(), o, nbits, rng)
  {
    var tries := 0;
    o := Origins(Origin(0, 0, 0, 0, true), Origin(0, 0, 0, 0, true));
    while tries < budget
      invariant ctx.E.s == 1 && G.s == 1 && G.Abs() != 1
    {
      done, o := KeyPass(ctx, P1, Q1, H, G, nbits, budget, rng);
      if !done { return; }
      var g := CmpInt(G, 1);
      if g == 0 { return; }
      tries := tries + 1;
    }
    return false, o;
  }

  /** The private numbers of the context. */
  ghost predicate Derived(ctx: RsaContext, P1: Mpi, Q1: Mpi, H: Mpi)
    reads ctx.E, ctx.D, ctx.P, ctx.Q, ctx.DP, ctx.DQ, ctx.QP, P1, Q1, H
  {
    && ctx.D.s == 1 && ctx.DP.s == 1 && ctx.DQ.s == 1 && ctx.QP.s == 1
    && ctx.D.p != [] && ctx.DP.p != [] && ctx.DQ.p != [] && ctx.QP.p != []
    && H.Abs() > 0 && P1.Abs() > 0 && Q1.Abs() > 0 && ctx.P.Abs() > 0
    && Cong(ctx.E.Abs() * ctx.D.Abs(), 1, H.Abs()) && ctx.D.Abs() < H.Abs()
    && ctx.DP.Abs() == ctx.D.Abs() % P1.Abs() && ctx.DQ.Abs() == ctx.D.Abs() % Q1.Abs()
    && ctx.QP.Abs() < ctx.P.Abs() && Cong(ctx.Q.Abs() * ctx.QP.Abs(), 1, ctx.P.Abs())
  }

  /** Neither of the two inverses of a key loses a carry: e modulo h and q modulo p. */
  ghost predicate InversesExact(e: nat, h: nat, q: nat, p: nat, mended: bool) {
    h > 0 && p > 0 && InverseRun(e % h, h, mended).Exact() && InverseRun(q % p, p, mended).Exact()
  }

  /** D, DP, DQ and QP. It fails only if the two candidates have a common factor. */
  method Derive(ctx: RsaContext, P1: Mpi, Q1: Mpi, H: Mpi, mended: bool) returns (ret: int, ghost exact: bool)
    requires ctx.Apart() && P1 !in {ctx.D, ctx.DP, ctx.DQ, ctx.QP} && Q1 !in {ctx.D, ctx.DP, ctx.DQ, ctx.QP}
    requires H !in {ctx.D, ctx.DP, ctx.DQ, ctx.QP}
    requires ctx.P.s == 1 && ctx.Q.s == 1 && ctx.E.s == 1 && ctx.E.p != [] && H.s == 1 && P1.s == 1 && Q1.s == 1
    requires H.Abs() > 1 && P1.Abs() > 0 && Q1.Abs() > 0 && ctx.P.Abs() > 1 && ctx.Q.p != [] && Gcd(ctx.E.Abs(), H.Abs()) == 1
    modifies ctx.D, ctx.DP, ctx.DQ, ctx.QP
    ensures mended ==> exact
    ensures ret == 0 ==> ctx.QP.Value() == InverseResult(ctx.Q.Abs() % ctx.P.Abs(), ctx.P.Abs(), mended)
    ensures ret == 0 ==> ctx.D.p != [] && ctx.D.Value() == InverseResult(ctx.E.Abs() % H.Abs(), H.Abs(), mended)
    ensures ret == 0 ==> (exact <==> InversesExact(ctx.E.Abs(), H.Abs(), ctx.Q.Abs(), ctx.P.Abs(), mended))
    ensures ret == if Gcd(ctx.Q.Abs(), ctx.P.Abs()) == 1 then 0 else ERR_MPI_NOT_ACCEPTABLE
    ensures ret == 0 && exact ==> Derived(ctx, P1, Q1, H)
  {
    ghost var e1, e2;
    ret, e1 := InvMod(ctx.D, ctx.E, H, mended);
    ret := ModMpi(ctx.DP, ctx.D, P1);
    ret := ModMpi(ctx.DQ, ctx.D, Q1);
    ret, e2 := InvMod(ctx.QP, ctx.Q, ctx.P, mended);
    exact := e1 && e2;
  }

  // ---------- the generated key ----------

  lemma EvenProduct(a: int, b: int)
    requires a % 2 == 0
    ensures (a * b) % 2 == 0
  {
    OddProduct(a, b);
  }

  /** The exponent is odd, because it is coprime to the even number (p - 1)(q - 1). */
  lemma ExponentOdd(e: nat, p: nat, q: nat)
    requires p % 2 == 1 && q > 0 && Totient(p, q) >= 0 && Gcd(e, Totient(p, q)) == 1
    ensures e % 2 == 1
  {
    EvenProduct(p - 1, q - 1);
    CoprimeParity(e, Totient(p, q));
  }

  lemma ExponentLength(e: nat)
    requires 3 <= e < 0x8000_0000
    ensures 2 <= BitLen(e) <= 64
  {
    var r := BitLen(e);
    assert Pow(2, 1) == 2 && Pow(2, 0) == 1;
    BaseIsPow2();
    if r > 64 { PowGrows(2, 64, r - 1); }
  }

  /** What the search has put into the context, whatever becomes of the private numbers. */
  ghost predicate SearchedKey(ctx: RsaContext, nbits: nat, exponent: int)
    reads ctx, ctx.N, ctx.E, ctx.P, ctx.Q
  {
    && Candidate(ctx.P) && Candidate(ctx.Q) && ctx.P.Abs() > ctx.Q.Abs()
    && ctx.N.s == 1 && ctx.N.Abs() == ctx.P.Abs() * ctx.Q.Abs() && BitLen(ctx.N.Abs()) == nbits
    && ctx.len == (nbits + 7) / 8 && ctx.E.Abs() == exponent
    && Totient(ctx.P.Abs(), ctx.Q.Abs()) > 1 && Gcd(ctx.E.Abs(), Totient(ctx.P.Abs(), ctx.Q.Abs())) == 1
  }

  /** Neither of the two inverses in the context loses a carry. */
  ghost predicate KeyExact(ctx: RsaContext, mended: bool)
    reads ctx, ctx.E, ctx.P, ctx.Q
  {
    && Totient(ctx.P.Abs(), ctx.Q.Abs()) > 1
    && InversesExact(ctx.E.Abs(), Totient(ctx.P.Abs(), ctx.Q.Abs()), ctx.Q.Abs(), ctx.P.Abs(), mended)
  }

  /** What a generated key is. */
  ghost predicate Generated(ctx: RsaContext, nbits: nat, exponent: int)
    reads ctx, ctx.N, ctx.E, ctx.D, ctx.P, ctx.Q, ctx.DP, ctx.DQ, ctx.QP
  {
    && Candidate(ctx.P) && Candidate(ctx.Q) && ctx.P.Abs() > ctx.Q.Abs()
    && ctx.N.s == 1 && ctx.E.s == 1 && ctx.D.s == 1 && ctx.DP.s == 1 && ctx.DQ.s == 1 && ctx.QP.s == 1
    && ctx.N.p != [] && ctx.E.p != [] && ctx.D.p != [] && ctx.DP.p != [] && ctx.DQ.p != [] && ctx.QP.p != []
    && BitLen(ctx.N.Abs()) == nbits && ctx.len == (nbits + 7) / 8 && ctx.E.Abs() == exponent
    && KeyEquations(ctx.N.Abs(), ctx.E.Abs(), ctx.D.Abs(), ctx.P.Abs(), ctx.Q.Abs())
    && ctx.DP.Abs() == ctx.D.Abs() % (ctx.P.Abs() - 1) && ctx.DQ.Abs() == ctx.D.Abs() % (ctx.Q.Abs() - 1)
    && ctx.QP.Abs() < ctx.P.Abs() && Cong(ctx.Q.Abs() * ctx.QP.Abs(), 1, ctx.P.Abs())
  }

  /** rsa_check_privkey accepts a generated key exactly up to 4096 bits. */
  lemma GeneratedPasses(ctx: RsaContext, nbits: nat, exponent: Int32)
    requires Generated(ctx, nbits, exponent) && nbits >= 128 && exponent >= 3
    ensures ctx.PrivateKeyOk() <==> nbits <= 4096
  {
    OddProduct(ctx.P.Abs(), ctx.Q.Abs());
    ExponentOdd(ctx.E.Abs(), ctx.P.Abs(), ctx.Q.Abs());
    ExponentLength(exponent);
  }

  /** With prime candidates the key is valid. */
  lemma GeneratedValid(ctx: RsaContext, nbits: nat, exponent: Int32)
    requires Generated(ctx, nbits, exponent) && Prime(ctx.P.Abs()) && Prime(ctx.Q.Abs())
    ensures ValidKey(ctx.HeldKey())
  {
  }

  /** A generated key has the length that its modulus needs. */
  lemma GeneratedSized(ctx: RsaContext, nbits: nat, exponent: Int32)
    requires Generated(ctx, nbits, exponent) && nbits > 0
    ensures Sized(ctx)
  {
    BytesForBits(ctx.N.Abs(), nbits, ctx.len);
  }

  lemma BytesForBits(n: nat, nbits: nat, len: nat)
    requires BitLen(n) == nbits > 0 && len == (nbits + 7) / 8
    ensures len > 0 && Pow(2, 8 * (len - 1)) <= n < Pow(2, 8 * len)
  {
    PowGrows(2, nbits, 8 * len);
    PowGrows(2, 8 * (len - 1), nbits - 1);
  }

  /** A generated key whose candidates are prime can be used at once, as public and as private key. */
  lemma GeneratedPartners(ctx: RsaContext, nbits: nat, exponent: Int32)
    requires Generated(ctx, nbits, exponent) && nbits > 0 && Prime(ctx.P.Abs()) && Prime(ctx.Q.Abs())
    requires ctx.Apart() && ctx.CachesEmpty()
    ensures Partners(ctx, ctx)
  {
    GeneratedSized(ctx, nbits, exponent);
    GeneratedValid(ctx, nbits, exponent);
    LowBit(ctx.P.p);
    LowBit(ctx.Q.p);
    InverseNotZero(ctx.Q.Abs(), ctx.QP.Abs(), ctx.P.Abs());
  }

  lemma InverseNotZero(q: int, x: int, p: int)
    requires p > 1 && Cong(q * x, 1, p)
    ensures x != 0
  {
    ModSmall(1, p);
    ModSmall(0, p);
    assert x == 0 ==> q * x == 0;
  }

  lemma DerivedKey(n: nat, e: nat, d: nat, p: nat, q: nat)
    requires p >= 3 && q >= 3 && n == p * q && Totient(p, q) > 1 && Cong(e * d, 1, Totient(p, q)) && Gcd(e, Totient(p, q)) == 1
    ensures KeyEquations(n, e, d, p, q)
  {
    ModSmall(1, Totient(p, q));
    assert e * d == d * e;
  }

  /** rsa_gen_key. done says that the searches ended within the budget. */
  method GenKey(ctx: RsaContext, rng: Generator?, nbits: int, exponent: Int32, budget: nat, mended: bool := false)
    returns (ret: int, done: bool, ghost exact: bool, ghost o: Origins)
    requires ctx.Apart()
    modifies rng, ctx`len, ctx.N, ctx.E, ctx.D, ctx.P, ctx.Q, ctx.DP, ctx.DQ, ctx.QP, ctx.RN, ctx.RP, ctx.RQ
    ensures mended ==> exact
    ensures ret == ERR_RSA_BAD_INPUT_DATA <==> rng == null || nbits < 128 || exponent < 3
    ensures done && ret == 0 ==> nbits >= 128 && SearchedKey(ctx, nbits, exponent) && (exact <==> KeyExact(ctx, mended))
    ensures done && ret == 0 ==> rng != null && FactorsFound(ctx.P.Abs(), ctx.Q.Abs(), o, nbits, rng)
    ensures done && ret == 0 && ProperSearches(o, nbits) ==> FactorsLarge(ctx.P.Abs(), ctx.Q.Abs(), (nbits + 1) / 2)
    ensures done && ret == 0 ==> ExponentDerived(ctx, mended)
    ensures done && ret == 0 && exact ==> Generated(ctx, nbits, exponent)
    ensures done && ret != 0 && ret != ERR_RSA_BAD_INPUT_DATA ==>
              ret == GenerationFailed() && ctx.Empty()
    ensures done && ret == 0 && old(ctx.CachesEmpty()) ==> ctx.CachesEmpty()
  {
    exact := true;
    o := Origins(Origin(0, 0, 0, 0, true), Origin(0, 0, 0, 0, true));
    if rng == null || nbits < 128 || exponent < 3 { return ERR_RSA_BAD_INPUT_DATA, true, true, o; }
    ret, done, exact, o := SearchAndFinish(ctx, nbits, exponent, budget, mended, rng);
  }

  /** The generation behind the check of the arguments. */
  method SearchAndFinish(ctx: RsaContext, nbits: nat, exponent: Int32, budget: nat, mended: bool, rng: Generator)
    returns (ret: int, done: bool, ghost exact: bool, ghost o: Origins)
    requires ctx.Apart() && nbits >= 128 && exponent >= 3
    modifies rng`pos, ctx`len, ctx.N, ctx.E, ctx.D, ctx.P, ctx.Q, ctx.DP, ctx.DQ, ctx.QP, ctx.RN, ctx.RP, ctx.RQ
    ensures (mended ==> exact) && ret != ERR_RSA_BAD_INPUT_DATA
    ensures done && ret == 0 ==> SearchedKey(ctx, nbits, exponent) && (exact <==> KeyExact(ctx, mended))
    ensures done && ret == 0 ==> FactorsFound(ctx.P.Abs(), ctx.Q.Abs(), o, nbits, rng)
    ensures done && ret == 0 ==> ExponentDerived(ctx, mended)
    ensures done && ret == 0 && exact ==> Generated(ctx, nbits, exponent)
    ensures done && ret != 0 ==> ret == GenerationFailed() && ctx.Empty()
    ensures done && ret == 0 && old(ctx.CachesEmpty()) ==> ctx.CachesEmpty()
  {
    var P1, Q1, H;
    done, P1, Q1, H, o := SearchFresh(ctx, nbits, exponent, budget, rng);
    if !done { return 0, false, true, o; }
    ret, exact := FinishKey(ctx, P1, Q1, H, nbits, exponent, mended);
  }

  /** The search on scratch numbers of its own. */
  method SearchFresh(ctx: RsaContext, nbits: nat, exponent: Int32, budget: nat, rng: Generator)
    returns (done: bool, P1: Mpi, Q1: Mpi, H: Mpi, ghost o: Origins)
    requires ctx.Apart() && nbits >= 128 && exponent >= 3
    modifies rng`pos, ctx.N, ctx.E, ctx.P, ctx.Q
    ensures fresh(P1) && fresh(Q1) && fresh(H)
    ensures {P1, Q1, H} !! {ctx.D, ctx.DP, ctx.DQ, ctx.QP, ctx.N, ctx.P, ctx.Q, ctx.E}
    ensures ctx.E.s == 1 && ctx.E.p != [] && ctx.E.Abs() == exponent
    ensures done ==> Chosen(ctx, P1, Q1, H, nbits) && FactorsFound(ctx.P.Abs(), ctx.Q.Abs(), o, nbits, rng)
  {
    P1 := new Mpi();
    Q1 := new Mpi();
    H := new Mpi();
    var G := new Mpi();
    Lset(ctx.E, exponent);
    done, o := KeySearch(ctx, P1, Q1, H, G, nbits, budget, rng);
  }

  /** The private exponent in the context is the outcome of its run. */
  ghost predicate ExponentDerived(ctx: RsaContext, mended: bool)
    reads ctx, ctx.N, ctx.E, ctx.D, ctx.P, ctx.Q
  {
    var h := Totient(ctx.P.Abs(), ctx.Q.Abs());
    h > 1 && ctx.N.p != [] && ctx.E.s == 1 && ctx.E.p != [] && ctx.D.p != []
    && ctx.D.Value() == InverseResult(ctx.E.Abs() % h, h, mended)
  }

  /** rsa_check_privkey accepts what was generated, with or without a lost carry, exactly up to 4096 bits and if
      the run for the private exponent ends with the inverse. */
  lemma SearchedPasses(ctx: RsaContext, nbits: nat, exponent: Int32, mended: bool)
    requires SearchedKey(ctx, nbits, exponent) && ExponentDerived(ctx, mended) && nbits >= 128 && exponent >= 3
    ensures ctx.PrivateKeyOk() <==>
            nbits <= 4096 && InverseHolds(exponent, Totient(ctx.P.Abs(), ctx.Q.Abs()), mended)
  {
    SearchedPublic(ctx, nbits, exponent);
    assert Predecessor(ctx.P) == ctx.P.Abs() - 1 && Predecessor(ctx.Q) == ctx.Q.Abs() - 1;
  }

  /** The public part of what was found is in order exactly up to 4096 bits. */
  lemma SearchedPublic(ctx: RsaContext, nbits: nat, exponent: Int32)
    requires SearchedKey(ctx, nbits, exponent) && ctx.N.p != [] && ctx.E.p != [] && nbits >= 128 && exponent >= 3
    ensures ctx.PublicKeyOk() <==> nbits <= 4096
  {
    OddProduct(ctx.P.Abs(), ctx.Q.Abs());
    ExponentOdd(ctx.E.Abs(), ctx.P.Abs(), ctx.Q.Abs());
    ExponentLength(exponent);
  }

  /** The run for e modulo h ends with an inverse. */
  ghost predicate InverseHolds(e: nat, h: int, mended: bool) {
    h > 1 && (InverseResult(e % h, h, mended) * e) % h == 1
  }

  /** It does if it loses no carry. */
  lemma ExactHolds(e: nat, h: nat, mended: bool)
    requires h > 1 && Gcd(e, h) == 1 && InverseRun(e % h, h, mended).Exact()
    ensures InverseHolds(e, h, mended)
  {
    RunResult(e, h, mended);
    ModSmall(1, h);
    assert e * InverseResult(e % h, h, mended) == InverseResult(e % h, h, mended) * e;
  }

  /** Generating a key and checking it. */
  method GenKeyThenCheck(ctx: RsaContext, rng: Generator?, nbits: int, exponent: Int32, budget: nat, mended: bool := false)
    returns (ret: int, check: int, done: bool, ghost exact: bool, ghost o: Origins)
    requires ctx.Apart()
    modifies rng, ctx`len, ctx.N, ctx.E, ctx.D, ctx.P, ctx.Q, ctx.DP, ctx.DQ, ctx.QP, ctx.RN, ctx.RP, ctx.RQ
    ensures done && ret == 0 ==> nbits >= 128 && SearchedKey(ctx, nbits, exponent) && (mended ==> exact)
    ensures done && ret == 0 ==>
              (check == 0 <==> nbits <= 4096 && InverseHolds(exponent, Totient(ctx.P.Abs(), ctx.Q.Abs()), mended))
    ensures done && ret == 0 && exact ==> (check == 0 <==> nbits <= 4096)
  {
    check := 0;
    ret, done, exact, o := GenKey(ctx, rng, nbits, exponent, budget, mended);
    if done && ret == 0 {
      check := ctx.CheckPrivateKey();
      SearchedPasses(ctx, nbits, exponent, mended);
      if exact { ExactHolds(exponent, Totient(ctx.P.Abs(), ctx.Q.Abs()), mended); }
    }
  }

  lemma Assembled(ctx: RsaContext, P1: Mpi, Q1: Mpi, H: Mpi, nbits: nat, exponent: int)
    requires Chosen(ctx, P1, Q1, H, nbits) && Derived(ctx, P1, Q1, H) && H.Abs() > 1
    requires ctx.E.s == 1 && ctx.E.p != [] && ctx.E.Abs() == exponent && ctx.len == (nbits + 7) / 8
    ensures Generated(ctx, nbits, exponent)
  {
    DerivedKey(ctx.N.Abs(), ctx.E.Abs(), ctx.D.Abs(), ctx.P.Abs(), ctx.Q.Abs());
  }

  lemma TotientLarge(p: nat, q: nat)
    requires p >= 3 && q >= 3
    ensures Totient(p, q) >= 4
  {
    ProductGrows(p - 1, q - 1, 2, 2);
  }

  /** The error code of the generation behind the search. */
  function GenerationFailed(): int {
    OrCode(ERR_RSA_KEY_GEN_FAILED, ERR_MPI_NOT_ACCEPTABLE)
  }

  /** The part behind the search: the private numbers, and the clean-up if they do not exist. */
  method FinishKey(ctx: RsaContext, P1: Mpi, Q1: Mpi, H: Mpi, nbits: nat, exponent: Int32, mended: bool)
    returns (ret: int, ghost exact: bool)
    requires ctx.Apart() && Chosen(ctx, P1, Q1, H, nbits) && exponent >= 3
    requires {P1, Q1, H} !! {ctx.D, ctx.DP, ctx.DQ, ctx.QP, ctx.N, ctx.P, ctx.Q, ctx.E}
    requires ctx.E.s == 1 && ctx.E.p != [] && ctx.E.Abs() == exponent
    modifies ctx`len, ctx.N, ctx.E, ctx.D, ctx.P, ctx.Q, ctx.DP, ctx.DQ, ctx.QP, ctx.RN, ctx.RP, ctx.RQ
    ensures mended ==> exact
    ensures ret == 0 ==> unchanged(ctx.P, ctx.Q)
    ensures ret == 0 ==> SearchedKey(ctx, nbits, exponent) && (exact <==> KeyExact(ctx, mended))
    ensures ret == 0 ==> ExponentDerived(ctx, mended)
    ensures ret == 0 && exact ==> Generated(ctx, nbits, exponent)
    ensures ret != 0 ==> ret == GenerationFailed() && ctx.Empty()
    ensures ret == 0 && old(ctx.CachesEmpty()) ==> ctx.CachesEmpty()
  {
    ret, exact := DeriveOrFree(ctx, P1, Q1, H, nbits, mended);
    if ret == 0 { CompleteKey(ctx, P1, Q1, H, nbits, exponent, exact); }
  }

  method DeriveOrFree(ctx: RsaContext, P1: Mpi, Q1: Mpi, H: Mpi, nbits: nat, mended: bool) returns (ret: int, ghost exact: bool)
    requires ctx.Apart() && Chosen(ctx, P1, Q1, H, nbits)
    requires {P1, Q1, H} !! {ctx.D, ctx.DP, ctx.DQ, ctx.QP, ctx.N, ctx.P, ctx.Q, ctx.E}
    requires ctx.E.s == 1 && ctx.E.p != []
    modifies ctx.N, ctx.E, ctx.D, ctx.P, ctx.Q, ctx.DP, ctx.DQ, ctx.QP, ctx.RN, ctx.RP, ctx.RQ
    ensures mended ==> exact
    ensures ret == 0 ==> unchanged(ctx.N, ctx.E, ctx.P, ctx.Q, ctx.RN, ctx.RP, ctx.RQ) && H.Abs() > 1
    ensures ret == 0 ==> (exact <==> KeyExact(ctx, mended)) && ExponentDerived(ctx, mended)
    ensures ret == 0 && exact ==> Derived(ctx, P1, Q1, H)
    ensures ret != 0 ==> ret == GenerationFailed() && ctx.Empty()
  {
    TotientLarge(ctx.P.Abs(), ctx.Q.Abs());
    ret, exact := Derive(ctx, P1, Q1, H, mended);
    if ret != 0 {
      Free(ctx);
      return OrCode(ERR_RSA_KEY_GEN_FAILED, ret), exact;
    }
  }

  /** The length of the key, which completes it. */
  method CompleteKey(ctx: RsaContext, P1: Mpi, Q1: Mpi, H: Mpi, nbits: nat, exponent: Int32, ghost exact: bool)
    requires ctx.Apart() && Chosen(ctx, P1, Q1, H, nbits) && exponent >= 3
    requires ctx.E.s == 1 && ctx.E.p != [] && ctx.E.Abs() == exponent && H.Abs() > 1
    requires exact ==> Derived(ctx, P1, Q1, H)
    modifies ctx`len
    ensures SearchedKey(ctx, nbits, exponent)
    ensures exact ==> Generated(ctx, nbits, exponent)
  {
    var bits := Msb(ctx.N);
    ctx.len := (bits + 7) / 8;
    if exact { Assembled(ctx, P1, Q1, H, nbits, exponent); }
  }

  /** rsa_free. */
  method Free(ctx: RsaContext)
    requires ctx.Apart()
    modifies ctx.N, ctx.E, ctx.D, ctx.P, ctx.Q, ctx.DP, ctx.DQ, ctx.QP, ctx.RN, ctx.RP, ctx.RQ
    ensures ctx.Empty()
  {
    FreeMpi(ctx.RQ);
    FreeMpi(ctx.RP);
    FreeMpi(ctx.RN);
    FreeMpi(ctx.QP);
    FreeMpi(ctx.DQ);
    FreeMpi(ctx.DP);
    FreeMpi(ctx.Q);
    FreeMpi(ctx.P);
    FreeMpi(ctx.D);
    FreeMpi(ctx.E);
    FreeMpi(ctx.N);
  }

  method FreeMpi(X: Mpi)
    modifies X
    ensures X.s == 1 && X.p == []
  {
    X.s, X.p := 1, [];
  }
}
