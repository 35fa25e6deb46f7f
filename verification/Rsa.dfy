/** The RSA context: key checks, the public and the private operation. */
module Rsa {
  import opened Arithmetic
  import opened RsaTheory
  import opened Limbs
  import opened MpiCore
  import opened AddSub
  import opened Mul
  import opened Shift
  import opened Mod
  import opened Montgomery
  import opened ExpMod
  import opened GcdInv
  import opened Binary

  const ERR_RSA_BAD_INPUT_DATA: int := -0x0400
  const ERR_RSA_INVALID_PADDING: int := -0x0410
  const ERR_RSA_KEY_GEN_FAILED: int := -0x0420
  const ERR_RSA_KEY_CHECK_FAILED: int := -0x0430
  const ERR_RSA_PUBLIC_FAILED: int := -0x0440
  const ERR_RSA_PRIVATE_FAILED: int := -0x0450
  const ERR_RSA_VERIFY_FAILED: int := -0x0460
  const ERR_RSA_OUTPUT_TOO_LARGE: int := -0x0470

  const RSA_PUBLIC: int := 0
  const RSA_PRIVATE: int := 1
  const RSA_PKCS_V15: int := 0

  /** code | ret for an RSA code and an MPI code: the low four bits of every RSA code are clear, so the
      bitwise or of the two is their sum. */
  function OrCode(code: int, ret: int): int
    requires code % 16 == 0 && 0 <= ret < 16
  {
    code + ret
  }

  class RsaContext {
    var len: nat
    const N: Mpi
    const E: Mpi
    const D: Mpi
    const P: Mpi
    const Q: Mpi
    const DP: Mpi
    const DQ: Mpi
    const QP: Mpi
    const RN: Mpi
    const RP: Mpi
    const RQ: Mpi
    var padding: int

    /** rsa_init: everything empty. */
    constructor (padding: int)
      ensures this.padding == padding && len == 0 && Apart() && Empty()
      ensures fresh(Numbers()) && fresh(Caches())
    {
      N := new Mpi();
      E := new Mpi();
      D := new Mpi();
      P := new Mpi();
      Q := new Mpi();
      DP := new Mpi();
      DQ := new Mpi();
      QP := new Mpi();
      RN := new Mpi();
      RP := new Mpi();
      RQ := new Mpi();
      len, this.padding := 0, padding;
    }

    ghost predicate Empty()
      reads N, E, D, P, Q, DP, DQ, QP, RN, RP, RQ
    {
      && N.p == [] && E.p == [] && D.p == [] && P.p == [] && Q.p == [] && DP.p == [] && DQ.p == [] && QP.p == []
      && CachesEmpty()
    }

    ghost predicate CachesEmpty()
      reads RN, RP, RQ
    {
      RN.p == [] && RP.p == [] && RQ.p == []
    }

    /** The numbers of the context are different objects. */
    ghost predicate Apart() {
      && N !in {E, D, P, Q, DP, DQ, QP, RN, RP, RQ} && E !in {D, P, Q, DP, DQ, QP, RN, RP, RQ}
      && D !in {P, Q, DP, DQ, QP, RN, RP, RQ} && P !in {Q, DP, DQ, QP, RN, RP, RQ} && Q !in {DP, DQ, QP, RN, RP, RQ}
      && DP !in {DQ, QP, RN, RP, RQ} && DQ !in {QP, RN, RP, RQ} && QP !in {RN, RP, RQ} && RN !in {RP, RQ} && RP != RQ
    }

    ghost function Numbers(): set<Mpi> {
      {N, E, D, P, Q, DP, DQ, QP}
    }

    ghost function Caches(): set<Mpi> {
      {RN, RP, RQ}
    }

    /** The key that the context holds. */
    ghost function HeldKey(): Key
      reads N, E, D, P, Q, DP, DQ, QP
    {
      Key(N.Abs(), E.Abs(), D.Abs(), P.Abs(), Q.Abs(), DP.Abs(), DQ.Abs(), QP.Abs())
    }

    /** What the public operation needs. */
    ghost predicate PublicReady()
      reads N, E, RN
    {
      Apart() && N.s == 1 && N.p != [] && E.p != [] && Cached(RN, N)
    }

    /** The numbers for the CRT form of the private operation are there. */
    ghost predicate CrtLoaded()
      reads N, P, Q, DP, DQ, QP, RP, RQ
    {
      && Apart() && N.s == 1 && P.s == 1 && Q.s == 1 && QP.s == 1 && P.p != [] && Q.p != [] && DP.p != [] && DQ.p != []
      && QP.Abs() > 0 && Cached(RP, P) && Cached(RQ, Q)
    }

    ghost predicate OddFactors()
      reads P, Q
    {
      P.p != [] && Q.p != [] && P.p[0] % 2 == 1 && Q.p[0] % 2 == 1
    }

    /** What the CRT form of the private operation needs to succeed. */
    ghost predicate CrtReady()
      reads N, P, Q, DP, DQ, QP, RP, RQ
    {
      CrtLoaded() && OddFactors()
    }

    /** What rsa_public answers for the number m. */
    ghost function PublicCode(m: nat): int
      requires N.p != []
      reads this, N, E
    {
      if m >= N.Abs() then ERR_RSA_BAD_INPUT_DATA
      else if N.p[0] % 2 == 0 then OrCode(ERR_RSA_PUBLIC_FAILED, ERR_MPI_BAD_INPUT_DATA)
      else if Pow(m, E.Abs()) % N.Abs() >= BytePow(len) then OrCode(ERR_RSA_PUBLIC_FAILED, ERR_MPI_BUFFER_TOO_SMALL)
      else 0
    }

    /** rsa_public: output = input ^ E mod N; output may be input. */
    method Public(input: array<Byte>, output: array<Byte>) returns (ret: int)
      requires PublicReady() && len <= input.Length && len <= output.Length
      modifies output, RN
      ensures PublicReady() && ret == PublicCode(Number(old(input[..len])))
      ensures ret == 0 ==> N.Abs() > 0 && Number(output[..len]) == Pow(Number(old(input[..len])), E.Abs()) % N.Abs()
      ensures ret == 0 ==> output[len..] == old(output[len..])
      ensures ret != 0 ==> output[..] == old(output[..])
    {
      var T := new Mpi();
      ret := ReadBinary(T, input, len);
      var c := CmpMpi(T, N);
      if c >= 0 { return ERR_RSA_BAD_INPUT_DATA; }
      ret := ExpModMpi(T, T, E, N, RN);
      if ret == 0 { ret := WriteBinary(T, output, len); }
      if ret != 0 { return OrCode(ERR_RSA_PUBLIC_FAILED, ret); }
      return 0;
    }

    /** The value that the CRT computation arrives at. */
    ghost function CrtValue(m: nat): nat
      requires P.Abs() > 0 && Q.Abs() > 0
      reads P, Q, DP, DQ, QP
    {
      Crt(m, P.Abs(), Q.Abs(), DP.Abs(), DQ.Abs(), QP.Abs())
    }

    /** T1 = T ^ DP mod P and T2 = T ^ DQ mod Q; the error if P or Q is even. */
    method TwoPowers(T: Mpi, T1: Mpi, T2: Mpi) returns (ret: int)
      requires CrtLoaded() && T.s == 1 && T1 != T2 && T !in {T1, T2, RP, RQ}
      requires T1 !in {N, P, Q, DP, DQ, QP, RP, RQ} && T2 !in {N, P, Q, DP, DQ, QP, RP, RQ}
      modifies T1, T2, RP, RQ
      ensures CrtLoaded() && ret == if OddFactors() then 0 else ERR_MPI_BAD_INPUT_DATA
      ensures ret == 0 ==> P.Abs() > 0 && Q.Abs() > 0 && T1.s == 1 && T2.s == 1 && T1.p != [] && T2.p != []
      ensures ret == 0 ==> T1.Abs() == Pow(T.Abs(), DP.Abs()) % P.Abs() && T2.Abs() == Pow(T.Abs(), DQ.Abs()) % Q.Abs()
    {
      ret := ExpModMpi(T1, T, DP, P, RP);
      if ret == 0 { ret := ExpModMpi(T2, T, DQ, Q, RQ); }
    }

    /** The CRT computation: T becomes T^DP mod P and T^DQ mod Q, recombined. */
    method CrtPower(T: Mpi) returns (ret: int)
      requires CrtLoaded() && T !in {N, P, Q, DP, DQ, QP, RP, RQ} && T.s == 1
      modifies T, RP, RQ
      ensures CrtLoaded() && ret == if OddFactors() then 0 else ERR_MPI_BAD_INPUT_DATA
      ensures ret == 0 ==> T.s == 1 && T.p != [] && P.Abs() > 0 && Q.Abs() > 0 && T.Abs() == CrtValue(old(T.Abs()))
    {
      var T1 := new Mpi();
      var T2 := new Mpi();
      ret := TwoPowers(T, T1, T2);
      if ret == 0 { Recombine(T, T1, T2, P, Q, QP); }
    }

    /** What rsa_private answers for the number m with odd factors. */
    ghost function PrivateCode(m: nat): int
      requires P.Abs() > 0 && Q.Abs() > 0
      reads this, N, P, Q, DP, DQ, QP
    {
      if m >= N.Abs() then ERR_RSA_BAD_INPUT_DATA
      else if CrtValue(m) >= BytePow(len) then OrCode(ERR_RSA_PRIVATE_FAILED, ERR_MPI_BUFFER_TOO_SMALL)
      else 0
    }

    /** What it answers for the number m with any factors. */
    ghost function PrivateAnswer(m: nat): int
      reads this, N, P, Q, DP, DQ, QP
    {
      if m >= N.Abs() then ERR_RSA_BAD_INPUT_DATA
      else if !OddFactors() then OrCode(ERR_RSA_PRIVATE_FAILED, ERR_MPI_BAD_INPUT_DATA)
      else
        OddIsPositive(P.p);
        OddIsPositive(Q.p);
        PrivateCode(m)
    }

    /** rsa_private: output = the CRT value of input; output may be input. */
    method Private(input: array<Byte>, output: array<Byte>) returns (ret: int)
      requires CrtLoaded() && len <= input.Length && len <= output.Length
      modifies output, RP, RQ
      ensures CrtLoaded() && ret == PrivateAnswer(Number(old(input[..len])))
      ensures ret == 0 ==> OddFactors() && P.Abs() > 0 && Q.Abs() > 0 && Number(output[..len]) == CrtValue(Number(old(input[..len])))
      ensures ret == 0 ==> output[len..] == old(output[len..])
      ensures ret != 0 ==> output[..] == old(output[..])
    {
      var T := new Mpi();
      ret := ReadBinary(T, input, len);
      var c := CmpMpi(T, N);
      if c >= 0 { return ERR_RSA_BAD_INPUT_DATA; }
      ret := CrtPower(T);
      if ret == 0 { ret := WriteBinary(T, output, len); }
      if ret != 0 { return OrCode(ERR_RSA_PRIVATE_FAILED, ret); }
      return 0;
    }

    // ---------- either operation ----------

    ghost predicate Ready(mode: int)
      reads N, E, P, Q, DP, DQ, QP, RN, RP, RQ
    {
      if mode == RSA_PUBLIC then PublicReady() else CrtReady()
    }

    /** What the operation answers for the number m. */
    ghost function Code(mode: int, m: nat): int
      requires Ready(mode)
      reads this, N, E, P, Q, DP, DQ, QP, RN, RP, RQ
    {
      OddPrimes(mode);
      if mode == RSA_PUBLIC then PublicCode(m) else PrivateCode(m)
    }

    /** The number that the operation computes from m < N. */
    ghost function Power(mode: int, m: nat): nat
      requires Ready(mode) && m < N.Abs()
      reads this, N, E, P, Q, DP, DQ, QP, RN, RP, RQ
    {
      OddPrimes(mode);
      if mode == RSA_PUBLIC then Pow(m, E.Abs()) % N.Abs() else CrtValue(m)
    }

    lemma OddPrimes(mode: int)
      requires Ready(mode)
      ensures mode != RSA_PUBLIC ==> P.Abs() > 0 && Q.Abs() > 0
    {
      if mode != RSA_PUBLIC {
        OddIsPositive(P.p);
        OddIsPositive(Q.p);
      }
    }

    /** mode == RSA_PUBLIC ? rsa_public : rsa_private. */
    method Operate(mode: int, input: array<Byte>, output: array<Byte>) returns (ret: int)
      requires Ready(mode) && len <= input.Length && len <= output.Length
      modifies output, RN, RP, RQ
      ensures old(Ready(RSA_PUBLIC)) ==> Ready(RSA_PUBLIC)
      ensures old(Ready(RSA_PRIVATE)) ==> Ready(RSA_PRIVATE)
      ensures Ready(mode) && ret == Code(mode, Number(old(input[..len])))
      ensures ret == 0 ==> Number(old(input[..len])) < N.Abs()
      ensures ret == 0 ==> output[..len] == Bytes(Power(mode, Number(old(input[..len]))), len)
      ensures ret == 0 ==> output[len..] == old(output[len..])
      ensures ret != 0 ==> output[..] == old(output[..])
    {
      OddPrimes(mode);
      if mode == RSA_PUBLIC {
        ret := Public(input, output);
      } else {
        ret := Private(input, output);
      }
      NumberBytes(output[..len]);
    }

    // ---------- key checks ----------

    ghost predicate PublicKeyOk()
      reads N, E
    {
      && N.p != [] && E.p != [] && N.Abs() % 2 == 1 && E.Abs() % 2 == 1
      && 128 <= BitLen(N.Abs()) <= 4096 && 2 <= BitLen(E.Abs()) <= 64
    }

    /** rsa_check_pubkey. */
    method CheckPublicKey() returns (ret: int)
      ensures ret == if PublicKeyOk() then 0 else ERR_RSA_KEY_CHECK_FAILED
    {
      if N.p == [] || E.p == [] { return ERR_RSA_KEY_CHECK_FAILED; }
      LowBit(N.p);
      LowBit(E.p);
      if N.p[0] % 2 == 0 || E.p[0] % 2 == 0 { return ERR_RSA_KEY_CHECK_FAILED; }
      var n := Msb(N);
      if n < 128 || n > 4096 { return ERR_RSA_KEY_CHECK_FAILED; }
      var e := Msb(E);
      if e < 2 || e > 64 { return ERR_RSA_KEY_CHECK_FAILED; }
      return 0;
    }

    ghost predicate PrivateKeyOk()
      reads N, E, D, P, Q
    {
      && PublicKeyOk() && P.p != [] && Q.p != [] && D.p != []
      && SignedEquations(N, E, D, P, Q)
    }

    /** rsa_check_privkey. */
    method CheckPrivateKey() returns (ret: int)
      ensures ret == 0 <==> PrivateKeyOk()
      ensures !PublicKeyOk() ==> ret == ERR_RSA_KEY_CHECK_FAILED
    {
      ret := CheckPublicKey();
      if ret != 0 { return; }
      if P.p == [] || Q.p == [] || D.p == [] { return ERR_RSA_KEY_CHECK_FAILED; }
      var ok;
      ret, ok := CheckEquations(N, E, D, P, Q);
      if ok { return 0; }
      return OrCode(ERR_RSA_KEY_CHECK_FAILED, ret);
    }
  }

  /** The equations between the numbers of a private key. */
  predicate KeyEquations(n: nat, e: nat, d: nat, p: nat, q: nat) {
    && n == p * q && Totient(p, q) > 0
    && (d * e) % Totient(p, q) == 1 && Gcd(e, Totient(p, q)) == 1
  }

  /** What the subtraction of 1 gives: a negative number may lose a carry. */
  ghost function Predecessor(P: Mpi): (x: int)
    reads P
  {
    if P.s == 1 then P.Abs() - 1 else -(P.Abs() + 1 - Lost(P.p, [1], Significant(P.p)))
  }

  /** The equations that the code checks, on the numbers with their signs. */
  ghost predicate SignedEquations(N: Mpi, E: Mpi, D: Mpi, P: Mpi, Q: Mpi)
    reads N, E, D, P, Q
  {
    var h := Predecessor(P) * Predecessor(Q);
    && N.Value() == P.Value() * Q.Value() && h > 0
    && (D.Value() * E.Value()) % h == 1 && Gcd(E.Abs(), h) == 1
  }

  /** With positive signs they are the equations of a private key. */
  lemma PositiveEquations(N: Mpi, E: Mpi, D: Mpi, P: Mpi, Q: Mpi)
    requires N.s == 1 && E.s == 1 && D.s == 1 && P.s == 1 && Q.s == 1
    ensures SignedEquations(N, E, D, P, Q) <==> KeyEquations(N.Abs(), E.Abs(), D.Abs(), P.Abs(), Q.Abs())
  {
  }

  /** The comparisons of rsa_check_privkey behind the check of the public part. */
  method CheckEquations(N: Mpi, E: Mpi, D: Mpi, P: Mpi, Q: Mpi) returns (ret: int, ok: bool)
    ensures ok <==> SignedEquations(N, E, D, P, Q)
    ensures ok ==> ret == 0
    ensures 0 <= ret < 16
  {
    var PQ := new Mpi();
    var H := new Mpi();
    ret := MulMpi(PQ, P, Q);
    Phi(H, P, Q);
    ret, ok := ExponentsMatch(D, E, H);
    if ret != 0 { return; }
    var same := SameNumber(PQ, N);
    ok := same && ok;
  }

  /** The comparison for equality is right for all signs and lengths. */
  method SameNumber(X: Mpi, Y: Mpi) returns (same: bool)
    ensures same <==> X.Value() == Y.Value()
  {
    var c := CmpMpi(X, Y);
    if Top(X.p) < Top(Y.p) { CompareTops(Y.p, X.p); }
    same := c == 0;
  }

  /** H = (P - 1) * (Q - 1). */
  method Phi(H: Mpi, P: Mpi, Q: Mpi)
    requires H != P && H != Q
    modifies H
    ensures H.Value() == Predecessor(P) * Predecessor(Q)
  {
    var P1 := LessOne(P);
    var Q1 := LessOne(Q);
    var ret := MulMpi(H, P1, Q1);
  }

  method LessOne(P: Mpi) returns (P1: Mpi)
    ensures fresh(P1) && P1.Value() == Predecessor(P)
  {
    P1 := new Mpi();
    var ret := SubInt(P1, P, 1);
  }

  /** D * E mod H == 1 and gcd(E, H) == 1. */
  method ExponentsMatch(D: Mpi, E: Mpi, H: Mpi) returns (ret: int, ok: bool)
    ensures ret == if H.Value() < 0 then ERR_MPI_NEGATIVE_VALUE else if H.Value() == 0 then ERR_MPI_DIVISION_BY_ZERO else 0
    ensures ret != 0 ==> !ok
    ensures ret == 0 ==> (ok <==> (D.Value() * E.Value()) % H.Value() == 1 && Gcd(E.Abs(), H.Abs()) == 1)
  {
    var DE := new Mpi();
    var I := new Mpi();
    var G := new Mpi();
    ret := MulMpi(DE, D, E);
    ret := ModMpi(I, DE, H);
    if ret != 0 { return ret, false; }
    if DE.Value() == 0 { ModSmall(0, H.Value()); }
    ret := GcdMpi(G, E, H);
    var i := CmpInt(I, 1);
    var g := CmpInt(G, 1);
    ok := i == 0 && g == 0;
  }

  /** A product with a positive factor is stored as a zero with a positive sign, if it is zero. */
  method NormalProduct(X: Mpi, A: Mpi, B: Mpi)
    requires A.Normal() && B.s == 1 && B.Abs() > 0
    modifies X
    ensures X.Normal() && X.Value() == old(A.Value() * B.Value()) && (old(A.s) == 1 ==> X.s == 1)
    ensures |X.p| >= |old(X.p)|
  {
    ProductZero(A.Abs(), B.Abs());
    var ret := MulMpi(X, A, B);
  }

  lemma ProductZero(a: int, b: int)
    requires b > 0
    ensures a * b == 0 <==> a == 0
  {
  }

  /** T = T2 + ((T1 - T2) * QP mod P) * Q. The sum cannot meet a stalled carry: the product is zero or at
      least as large as T2. */
  method Recombine(T: Mpi, T1: Mpi, T2: Mpi, P: Mpi, Q: Mpi, QP: Mpi)
    requires T !in {T1, T2, P, Q, QP} && T1 !in {T2, P, Q, QP} && T2 !in {P, Q, QP}
    requires T1.s == 1 && T2.s == 1 && P.s == 1 && Q.s == 1 && QP.s == 1 && QP.Abs() > 0 && P.Abs() > 0 && T2.Abs() < Q.Abs()
    requires T1.p != []
    modifies T, T1
    ensures T.s == 1 && T.p != []
    ensures T.Abs() == T2.Abs() + (((old(T1.Abs()) - T2.Abs()) * QP.Abs()) % P.Abs()) * Q.Abs()
  {
    var ret := SubMpi(T, T1, T2);
    NormalProduct(T1, T, QP);
    ret := ModMpi(T, T1, P);
    ProductCovers(T.Abs(), Q.Abs());
    NormalProduct(T1, T, Q);
    NoStall(T2.p, T1.p, CopiedLength(T.p, T2.p, false));
    ret := AddMpi(T, T2, T1);
  }

  lemma ProductCovers(t: nat, q: nat)
    ensures t == 0 ==> t * q == 0
    ensures t > 0 ==> t * q >= q
  {
    if t > 0 { MulMono(1, t, q); }
  }

  lemma NoStall(a: seq<Limb>, b: seq<Limb>, n: int)
    requires Val(b) == 0 || Val(b) >= Val(a)
    ensures Lost(a, b, n) == 0
  {
    ValTop(b);
    if Val(b) != 0 { LengthBound(b, a); }
  }

  function Crt(m: nat, p: nat, q: nat, dp: nat, dq: nat, qp: nat): (r: nat)
    requires p > 0 && q > 0
  {
    var t1, t2 := Pow(m, dp) % p, Pow(m, dq) % q;
    var t := ((t1 - t2) * qp) % p;
    NonnegativeSum(t2, t, q);
    t2 + t * q
  }

  lemma NonnegativeSum(t2: int, t: int, q: int)
    requires t2 >= 0 && t >= 0 && q > 0
    ensures t2 + t * q >= 0
  {
    MulMono(0, t, q);
  }

  // ---------- the two operations undo each other ----------

  /** len is the number of bytes of the modulus. */
  ghost predicate Sized(ctx: RsaContext)
    reads ctx, ctx.N
  {
    ctx.len > 0 && BytePow(ctx.len - 1) <= ctx.N.Abs() < BytePow(ctx.len)
  }

  /** priv holds a valid key and pub its public part; they may be the same context. */
  ghost predicate Partners(pub: RsaContext, priv: RsaContext)
    reads pub, pub.N, pub.E, pub.RN
    reads priv, priv.N, priv.E, priv.D, priv.P, priv.Q, priv.DP, priv.DQ, priv.QP, priv.RP, priv.RQ
  {
    && pub.PublicReady() && priv.CrtReady() && ValidKey(priv.HeldKey()) && Sized(priv) && Sized(pub)
    && pub.N.Abs() == priv.N.Abs() && pub.E.Abs() == priv.E.Abs() && pub.len == priv.len
  }

  /** The CRT form computes the private power. */
  lemma CrtIsPrivatePower(priv: RsaContext, m: nat)
    requires priv.CrtReady() && ValidKey(priv.HeldKey())
    ensures priv.P.Abs() > 0 && priv.Q.Abs() > 0 && priv.N.Abs() > 0
    ensures priv.CrtValue(m) == Pow(m, priv.D.Abs()) % priv.N.Abs()
  {
    var k := priv.HeldKey();
    KeyModulus(k);
    var t1, t2 := Pow(m, k.dp) % k.p, Pow(m, k.dq) % k.q;
    CrtIsPower(m, k, t1, t2, ((t1 - t2) * k.qp) % k.p);
  }

  lemma OddModulus(pub: RsaContext, priv: RsaContext)
    requires Partners(pub, priv)
    ensures pub.N.p[0] % 2 == 1 && pub.N.Abs() > 1 && priv.P.Abs() > 0 && priv.Q.Abs() > 0
  {
    OddIsPositive(priv.P.p);
    OddIsPositive(priv.Q.p);
    OddProduct(priv.P.Abs(), priv.Q.Abs());
    LowBit(pub.N.p);
    KeyModulus(priv.HeldKey());
  }

  /** Every block below the modulus survives encryption and decryption. */
  lemma EncryptDecrypt(pub: RsaContext, priv: RsaContext, m: nat)
    requires Partners(pub, priv) && m < pub.N.Abs()
    ensures pub.Code(RSA_PUBLIC, m) == 0
    ensures pub.Power(RSA_PUBLIC, m) < priv.N.Abs() && priv.Code(RSA_PRIVATE, pub.Power(RSA_PUBLIC, m)) == 0
    ensures priv.Power(RSA_PRIVATE, pub.Power(RSA_PUBLIC, m)) == m
  {
    OddModulus(pub, priv);
    PrivateUndoesPublic(m, priv.HeldKey());
    CrtIsPrivatePower(priv, pub.Power(RSA_PUBLIC, m));
  }

  /** Every block below the modulus survives signing and verification. */
  lemma SignVerify(pub: RsaContext, priv: RsaContext, m: nat)
    requires Partners(pub, priv) && m < priv.N.Abs()
    ensures priv.Code(RSA_PRIVATE, m) == 0
    ensures priv.Power(RSA_PRIVATE, m) < pub.N.Abs() && pub.Code(RSA_PUBLIC, priv.Power(RSA_PRIVATE, m)) == 0
    ensures pub.Power(RSA_PUBLIC, priv.Power(RSA_PRIVATE, m)) == m
  {
    OddModulus(pub, priv);
    CrtIsPrivatePower(priv, m);
    PublicUndoesPrivate(m, priv.HeldKey());
  }
}
