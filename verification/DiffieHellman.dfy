/**
 Key exchange (diffie_hellman/diffiehellman/diffiehellman.go and gossiper/diffiehellman.go): group
 parameters travel as hexadecimal text, public keys as big-endian bytes, and both ends hash the
 bytes of the shared power. Numbers are the unbounded integers of Go's `big.Int`; the final hash is
 a function parameter.
 */
module DiffieHellman {
  import opened Arithmetic
  import opened Words

  type octet = n: int | 0 <= n < 256

  // ---------------------------------------------------------------- powers

  function Pow(x: int, e: nat): int {
    if e == 0 then 1 else x * Pow(x, e - 1)
  }

  /** `big.Int.Exp`: no reduction when the modulus is zero, otherwise the Euclidean remainder. */
  function ModExp(x: int, e: nat, m: int): int {
    if m == 0 then Pow(x, e) else Pow(x, e) % m
  }

  /** With a modulus the result is the remainder of the power, and the only one; without it the power. */
  lemma ModExpIsRemainder(x: int, e: nat, m: int, q: int, r: int)
    ensures m == 0 ==> ModExp(x, e, m) == Pow(x, e)
    ensures m != 0 && 0 <= r < Abs(m) ==> (Pow(x, e) == m * q + r ==> r == ModExp(x, e, m))
    ensures m != 0 ==> 0 <= ModExp(x, e, m) < Abs(m) && Pow(x, e) == m * (Pow(x, e) / m) + ModExp(x, e, m)
  {
    if m != 0 && 0 <= r < Abs(m) && Pow(x, e) == m * q + r { RemainderUnique(Pow(x, e), m, q, r); }
  }

  lemma {:induction false} PowAdd(x: int, a: nat, b: nat)
    ensures Pow(x, a + b) == Pow(x, a) * Pow(x, b)
  {
    if a == 0 {
    } else {
      PowAdd(x, a - 1, b);
      assert Pow(x, a + b) == x * Pow(x, a - 1 + b);
      assert x * (Pow(x, a - 1) * Pow(x, b)) == (x * Pow(x, a - 1)) * Pow(x, b);
    }
  }

  lemma {:induction false} PowPow(x: int, a: nat, b: nat)
    ensures 0 <= a * b && Pow(Pow(x, a), b) == Pow(x, a * b)
  {
    if b == 0 {
      assert a * b == 0;
    } else {
      PowPow(x, a, b - 1);
      assert a * b == a + a * (b - 1);
      PowAdd(x, a, a * (b - 1));
    }
  }

  lemma {:induction false} AbsPow(x: int, e: nat)
    ensures Abs(Pow(x, e)) == Pow(Abs(x), e)
  {
    if e > 0 {
      AbsPow(x, e - 1);
      AbsTimes(x, Pow(x, e - 1));
    }
  }

  lemma ReduceFactor(x: int, y: int, m: int)
    requires m != 0
    ensures (x % m * y) % m == (x * y) % m
  {
    var r := x % m * y;
    var q := x / m * y + r / m;
    assert x == m * (x / m) + x % m;
    assert x * y == m * (x / m) * y + r;
    assert m * (x / m) * y == m * (x / m * y);
    assert r == m * (r / m) + r % m;
    assert m * q == m * (x / m * y) + m * (r / m);
    RemainderUnique(x * y, m, q, r % m);
  }

  lemma {:induction false} ReduceBase(x: int, e: nat, m: int)
    requires m != 0
    ensures Pow(x % m, e) % m == Pow(x, e) % m
  {
    if e > 0 {
      var rest, reduced := Pow(x, e - 1), Pow(x % m, e - 1);
      ReduceBase(x, e - 1, m);
      ReduceFactor(x, reduced, m);
      ReduceFactor(reduced, x, m);
      ReduceFactor(rest, x, m);
      assert x * reduced == reduced * x && x * rest == rest * x;
    }
  }

  /** Raising the other side's public value to one's own secret gives the power of both secrets on both
      sides, up to the sign, for every base and modulus, zero and negative ones included. */
  lemma SharedPower(g: int, p: int, a: nat, b: nat)
    ensures 0 <= a * b
    ensures Abs(ModExp(Abs(ModExp(g, a, p)), b, p)) == Abs(ModExp(g, a * b, p))
    ensures Abs(ModExp(Abs(ModExp(g, b, p)), a, p)) == Abs(ModExp(g, a * b, p))
  {
    PowPow(g, a, b);
    PowPow(g, b, a);
    assert a * b == b * a;
    if p == 0 {
      AbsPow(Pow(g, a), b);
      AbsPow(Pow(g, b), a);
      AbsPow(Abs(Pow(g, a)), b);
      AbsPow(Abs(Pow(g, b)), a);
    } else {
      ReduceBase(Pow(g, a), b, p);
      ReduceBase(Pow(g, b), a, p);
    }
  }

  // ---------------------------------------------------------------- big-endian bytes

  /** `big.Int.Bytes`: the magnitude, without leading zeros; nothing for zero. */
  function Bytes(n: nat): seq<octet> {
    if n == 0 then [] else Bytes(n / 256) + [n % 256]
  }

  /** `big.Int.SetBytes` */
  function SetBytes(s: seq<octet>): nat {
    if s == [] then 0 else 256 * SetBytes(s[..|s| - 1]) + s[|s| - 1]
  }

  lemma {:induction false} BytesRoundTrip(n: nat)
    ensures SetBytes(Bytes(n)) == n
  {
    if n > 0 {
      BytesRoundTrip(n / 256);
      assert Bytes(n)[..|Bytes(n)| - 1] == Bytes(n / 256);
    }
  }

  /** The bytes are digits to the base 256, the first one the highest. */
  lemma {:induction false} SetBytesConcat(a: seq<octet>, b: seq<octet>)
    ensures SetBytes(a + b) == SetBytes(a) * Pow(256, |b|) + SetBytes(b)
    ensures |b| == 1 ==> SetBytes(b) == b[0]
  {
    if b == [] {
      assert a + b == a;
    } else {
      var front, last := b[..|b| - 1], b[|b| - 1];
      SetBytesConcat(a, front);
      assert (a + b)[..|a + b| - 1] == a + front;
      assert 256 * (SetBytes(a) * Pow(256, |front|)) == SetBytes(a) * Pow(256, |b|);
    }
  }

  /** Reading and writing back gives the same bytes exactly when there is no leading zero. */
  lemma {:induction false} SetBytesRoundTripIff(s: seq<octet>)
    ensures Bytes(SetBytes(s)) == s <==> s == [] || s[0] != 0
    ensures s != [] && s[0] != 0 ==> SetBytes(s) > 0
  {
    if s != [] {
      var front, last := s[..|s| - 1], s[|s| - 1];
      SetBytesRoundTripIff(front);
      assert s == front + [last];
      var n := SetBytes(s);
      if n > 0 {
        assert n / 256 == SetBytes(front) && n % 256 == last;
        assert Bytes(n)[..|Bytes(n)| - 1] == Bytes(n / 256);
        if front == [] {
          assert Bytes(n) == s;
        }
      }
    }
  }

  // ---------------------------------------------------------------- hexadecimal text

  const DIGITS := "0123456789abcdef"

  function Digits(n: nat): string {
    if n < 16 then [DIGITS[n]] else Digits(n / 16) + [DIGITS[n % 16]]
  }

  /** `fmt.Sprintf("%x", n)` */
  function Hex(n: int): string {
    if n < 0 then "-" + Digits(-n) else Digits(n)
  }

  function DigitValue(c: char): Option<nat> {
    if '0' <= c <= '9' then Some((c - '0') as nat)
    else if 'a' <= c <= 'f' then Some((c - 'a') as nat + 10)
    else if 'A' <= c <= 'F' then Some((c - 'A') as nat + 10)
    else None
  }

  function ParseDigits(s: string): Option<nat> {
    if s == [] then None
    else
      var d := DigitValue(s[|s| - 1]);
      if |s| == 1 || d.None? then d
      else
        var high := ParseDigits(s[..|s| - 1]);
        if high.None? then None else Some(16 * high.value + d.value)
  }

  /** `big.Int.SetString(s, 16)`: an optional sign, then at least one digit of either case. */
  function SetString(s: string): Option<int> {
    if s != [] && (s[0] == '-' || s[0] == '+') then
      var magnitude := ParseDigits(s[1..]);
      if magnitude.None? then None
      else
        var n: int := magnitude.value;
        Some(if s[0] == '-' then -n else n)
    else
      var n := ParseDigits(s);
      if n.None? then None else Some(n.value)
  }

  lemma DigitRoundTrip(d: nat)
    requires d < 16
    ensures DigitValue(DIGITS[d]) == Some(d)
    ensures DIGITS[d] != '-' && DIGITS[d] != '+'
  {}

  lemma {:induction false} DigitsRoundTrip(n: nat)
    ensures ParseDigits(Digits(n)) == Some(n)
    ensures Digits(n)[0] != '-' && Digits(n)[0] != '+'
  {
    DigitRoundTrip(n % 16);
    if n >= 16 {
      DigitsRoundTrip(n / 16);
      assert Digits(n)[..|Digits(n)| - 1] == Digits(n / 16);
      assert Digits(n)[0] == Digits(n / 16)[0];
    }
  }

  lemma MinusSign(s: string, n: nat)
    requires ParseDigits(s) == Some(n)
    ensures SetString("-" + s) == Some(-(n as int))
  {}

  lemma NoSign(s: string, n: nat)
    requires s != [] && s[0] != '-' && s[0] != '+' && ParseDigits(s) == Some(n)
    ensures SetString(s) == Some(n)
  {}

  lemma HexOfNegative(n: nat)
    requires n > 0
    ensures SetString(Hex(-(n as int))) == Some(-(n as int))
  {
    DigitsRoundTrip(n);
    MinusSign(Digits(n), n);
  }

  /** Printing and parsing a group parameter gives it back. */
  lemma HexRoundTrip(n: int)
    ensures SetString(Hex(n)) == Some(n)
  {
    if n < 0 {
      HexOfNegative(-n);
    } else {
      DigitsRoundTrip(n);
      NoSign(Digits(n), n);
    }
  }

  /** The encodings by example: digits of either case, highest first. */
  lemma WireExamples()
    ensures Hex(255) == "ff" && Hex(-26) == "-1a" && Hex(0) == "0" && SetString("+Ff") == Some(255)
    ensures Bytes(258) == [1, 2] && Bytes(0) == [] && SetBytes([0, 1, 2]) == 258
  {
    assert Digits(15) == "f" && Digits(1) == "1";
    assert ParseDigits("F") == Some(15) && ParseDigits("Ff") == Some(255) && "+Ff"[1..] == "Ff" && "Ff"[..1] == "F";
    assert Bytes(1) == [1] && SetBytes([0]) == 0 && [0, 1][..1] == [0] && [0, 1, 2][..2] == [0, 1];
    assert SetBytes([0, 1]) == 1;
  }

  // ---------------------------------------------------------------- the exchange

  datatype DiffieHellman = DiffieHellman(g: int, p: int, secret: nat)
  {
    function GeneratePublicKey(): seq<octet> {
      Bytes(Abs(ModExp(g, secret, p)))
    }

    function GenerateSymmetricKey(publicKey: seq<octet>, sum256: seq<octet> -> seq<octet>): seq<octet> {
      sum256(Bytes(Abs(ModExp(SetBytes(publicKey), secret, p))))
    }
  }

  /** The fields of a negotiation packet the key depends on. */
  datatype Packet = Packet(p: string, g: string, diffiePublicKey: seq<octet>)

  /** The initiator's first packet. */
  function Offer(dh: DiffieHellman): Packet {
    Packet(Hex(dh.p), Hex(dh.g), dh.GeneratePublicKey())
  }

  /** The responder: parse the group (a failure ends the process), derive the key, answer. */
  function Accept(offer: Packet, secret: nat, sum256: seq<octet> -> seq<octet>): Option<(Packet, seq<octet>)> {
    var group := SetString(offer.g);
    var p := SetString(offer.p);
    if group.None? || p.None? then None
    else
      var dh := DiffieHellman(group.value, p.value, secret);
      Some((Packet(offer.p, offer.g, dh.GeneratePublicKey()),
            dh.GenerateSymmetricKey(offer.diffiePublicKey, sum256)))
  }

  /** Agreement: the responder accepts, and both ends hold the same key, whatever the group and the
      two secrets are and through both wire encodings. It is the hash of the power of both secrets; what
      travels are the powers of one secret each. */
  lemma KeysAgree(initiator: DiffieHellman, secret: nat, sum256: seq<octet> -> seq<octet>)
    ensures var answer := Accept(Offer(initiator), secret, sum256);
            && answer.Some?
            && answer.value.1 == initiator.GenerateSymmetricKey(answer.value.0.diffiePublicKey, sum256)
    ensures var g, p, a := initiator.g, initiator.p, initiator.secret;
            var (reply, key) := Accept(Offer(initiator), secret, sum256).value;
            && 0 <= a * secret && key == sum256(Bytes(Abs(ModExp(g, a * secret, p))))
            && SetBytes(Offer(initiator).diffiePublicKey) == Abs(ModExp(g, a, p))
            && SetBytes(reply.diffiePublicKey) == Abs(ModExp(g, secret, p))
            && SetString(reply.p) == Some(p) && SetString(reply.g) == Some(g)
  {
    var g, p, a := initiator.g, initiator.p, initiator.secret;
    HexRoundTrip(g);
    HexRoundTrip(p);
    BytesRoundTrip(Abs(ModExp(g, a, p)));
    BytesRoundTrip(Abs(ModExp(g, secret, p)));
    SharedPower(g, p, a, secret);
  }
}
