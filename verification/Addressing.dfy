/**
  IP networks as numbers. A CIDR block is an address and a mask length, as in section 3.1 of
  RFC 4632; a network is a block with no host bits.
  */
module Addressing {
  datatype Version = V4 | V6

  function Width(v: Version): nat {
    match v
    case V4 => 32
    case V6 => 128
  }

  function Pow2(n: nat): (r: nat)
    ensures r >= 1
  {
    if n == 0 then 1 else 2 * Pow2(n - 1)
  }

  datatype Addr = Addr(version: Version, value: nat)

  datatype RawCidr = RawCidr(version: Version, value: nat, length: nat)

  predicate WellFormed(c: RawCidr) {
    c.length <= Width(c.version)
  }

  type Cidr = c: RawCidr | WellFormed(c) witness RawCidr(V4, 0, 0)

  /** The number of addresses of a block. */
  function Size(c: Cidr): nat {
    Pow2(Width(c.version) - c.length)
  }

  predicate NoHostBits(c: Cidr) {
    c.value % Size(c) == 0
  }

  type Network = c: Cidr | NoHostBits(c) witness RawCidr(V4, 0, 0)

  /** ip_network(text, strict=False): clear the host bits. */
  function Mask(c: Cidr): Network {
    Masked(c);
    RawCidr(c.version, Floor(c.value, Size(c)), c.length)
  }

  /** x rounded down to a multiple of size. */
  function Floor(x: nat, size: nat): nat
    requires size >= 1
  {
    x / size * size
  }

  lemma Masked(c: Cidr)
    ensures NoHostBits(RawCidr(c.version, Floor(c.value, Size(c)), c.length))
  {
    FloorIsMultiple(c.value, Size(c));
    hide Floor, Size;
  }

  lemma FloorIsMultiple(x: nat, size: nat)
    requires size >= 1
    ensures Floor(x, size) % size == 0
  {
    MaskedDivides(x, size);
  }

  function Last(n: Network): nat {
    n.value + Size(n) - 1
  }

  predicate Contains(n: Network, a: Addr) {
    n.version == a.version && n.value <= a.value <= Last(n)
  }

  /** child.subnet_of(parent): the address ranges nest. */
  predicate SubnetOf(child: Network, parent: Network) {
    child.version == parent.version && parent.value <= child.value && Last(child) <= Last(parent)
  }

  predicate StrictSubnetOf(child: Network, parent: Network) {
    SubnetOf(child, parent) && child != parent
  }

  // Facts about multiples, stated on bare numbers so that the solver meets no record fields here.

  lemma MaskedDivides(x: nat, size: nat)
    requires size >= 1
    ensures x / size * size % size == 0
    ensures x / size * size <= x < x / size * size + size
  {
    assert x == x / size * size + x % size;
    MultipleMod(x / size, size);
  }

  lemma {:induction false} MultipleMod(k: nat, size: nat)
    requires size >= 1
    ensures k * size % size == 0
  {
    if k > 0 {
      MultipleMod(k - 1, size);
      assert k * size == (k - 1) * size + size;
      AddOnce((k - 1) * size, size);
    }
  }

  lemma AddOnce(x: nat, size: nat)
    requires size >= 1
    ensures (x + size) % size == x % size
  {
    var q, r := x / size, x % size;
    assert x + size == (q + 1) * size + r;
    DivModUnique(x + size, size, q + 1, r);
  }

  lemma MulMonotone(a: nat, b: nat, size: nat)
    requires a <= b
    ensures a * size <= b * size
  {
    assert b * size == a * size + (b - a) * size;
  }

  lemma DivModUnique(x: nat, size: nat, q: nat, r: nat)
    requires size >= 1 && r < size && x == q * size + r
    ensures x / size == q && x % size == r
  {
    var q', r' := x / size, x % size;
    assert x == q' * size + r';
    if q' < q { MulMonotone(q' + 1, q, size); }
    if q' > q { MulMonotone(q + 1, q', size); }
  }

  /** Two multiples of the same size are at least that size apart. */
  lemma MultiplesApart(a: nat, b: nat, size: nat)
    requires size >= 1 && a % size == 0 && b % size == 0 && a < b
    ensures a + size <= b
  {
    var p, q := a / size, b / size;
    assert a == p * size && b == q * size;
    if q <= p { MulMonotone(q, p, size); } else { MulMonotone(p + 1, q, size); }
  }

  lemma MultipleOfMultiple(x: nat, big: nat, small: nat)
    requires small >= 1 && big >= 1 && x % big == 0 && big % small == 0
    ensures x % small == 0 && (x + big) % small == 0
  {
    var p, k := x / big, big / small;
    assert x == p * big && big == k * small;
    assert x == (p * k) * small by { assert p * (k * small) == (p * k) * small; }
    assert x + big == (p * k + k) * small;
    MultipleMod(p * k, small);
    MultipleMod(p * k + k, small);
  }

  lemma {:induction false} Pow2Grows(m: nat, n: nat)
    requires m <= n
    ensures Pow2(m) <= Pow2(n)
    ensures m < n ==> Pow2(m) < Pow2(n)
    ensures Pow2(n) % Pow2(m) == 0
  {
    if m < n {
      Pow2Grows(m, n - 1);
      MultipleOfMultiple(Pow2(n - 1), Pow2(n - 1), Pow2(m));
      assert Pow2(n) == Pow2(n - 1) + Pow2(n - 1);
    }
  }

  /** Masking a block keeps its address inside, and masking a network changes nothing. */
  lemma MaskMeaning(c: Cidr)
    ensures Contains(Mask(c), Addr(c.version, c.value))
    ensures NoHostBits(c) ==> Mask(c) == c
  {
    MaskedDivides(c.value, Size(c));
    assert c.value == c.value / Size(c) * Size(c) + c.value % Size(c);
  }

  lemma SizeOrder(a: Cidr, b: Cidr)
    requires a.version == b.version && a.length <= b.length
    ensures Size(b) <= Size(a) && Size(a) % Size(b) == 0
    ensures a.length < b.length ==> Size(b) < Size(a)
  {
    Pow2Grows(Width(b.version) - b.length, Width(a.version) - a.length);
  }

  /** Strict containment lengthens the mask, so chains of strict containment cannot close. */
  lemma StrictSubnetIsLonger(child: Network, parent: Network)
    requires StrictSubnetOf(child, parent)
    ensures child.length > parent.length
    ensures !SubnetOf(parent, child)
  {
    if child.length <= parent.length { SizeOrder(child, parent); }
    else { SizeOrder(parent, child); }
  }

  /**
    The range test agrees with the prefix test of section 3.1 of RFC 4632: a block lies in another
    exactly when its mask is at least as long and its leading bits are the other's.
    */
  lemma SubnetIsPrefixMatch(child: Network, parent: Network)
    ensures SubnetOf(child, parent) <==>
              && child.version == parent.version
              && parent.length <= child.length
              && Mask(RawCidr(parent.version, child.value, parent.length)) == parent
  {
    if child.version == parent.version {
      var leading := Mask(RawCidr(parent.version, child.value, parent.length));
      MaskedDivides(child.value, Size(parent));
      if SubnetOf(child, parent) {
        if child != parent { StrictSubnetIsLonger(child, parent); }
        if leading.value < parent.value { MultiplesApart(leading.value, parent.value, Size(parent)); }
        if parent.value < leading.value { MultiplesApart(parent.value, leading.value, Size(parent)); }
      } else if parent.length <= child.length && leading == parent {
        SameBlock(child, parent);
      }
    }
  }

  /** A network that starts inside a wider one also ends inside it. */
  lemma SameBlock(child: Network, parent: Network)
    requires child.version == parent.version && parent.length <= child.length
    requires parent.value <= child.value <= Last(parent)
    ensures SubnetOf(child, parent)
  {
    SizeOrder(parent, child);
    MultipleOfMultiple(parent.value, Size(parent), Size(child));
    MultiplesApart(child.value, parent.value + Size(parent), Size(child));
  }

  /** Two CIDR networks either nest or share no address. */
  lemma NestedOrDisjoint(a: Network, b: Network, shared: Addr)
    requires Contains(a, shared) && Contains(b, shared)
    ensures SubnetOf(a, b) || SubnetOf(b, a)
  {
    if a.length <= b.length { Nested(a, b, shared); } else { Nested(b, a, shared); }
  }

  lemma Nested(wide: Network, narrow: Network, shared: Addr)
    requires Contains(wide, shared) && Contains(narrow, shared) && wide.length <= narrow.length
    ensures SubnetOf(narrow, wide)
  {
    SizeOrder(wide, narrow);
    if narrow.value < wide.value {
      MultipleOfMultiple(wide.value, Size(wide), Size(narrow));
      MultiplesApart(narrow.value, wide.value, Size(narrow));
    }
    SameBlock(narrow, wide);
  }
}
