/** parse_address: a hexadecimal address string split into (tag, index, block offset)
    by the bit widths that the cache geometry gives. */
module Address {
  import opened Results
  import Text

  function Pow2(n: nat): (r: nat)
    ensures r >= 1
  {
    if n == 0 then 1 else 2 * Pow2(n - 1)
  }

  predicate IsPowerOfTwo(x: int)
    decreases if x < 0 then 0 else x
  {
    x >= 1 && (x == 1 || (x % 2 == 0 && IsPowerOfTwo(x / 2)))
  }

  /** int(math.log2(x)) for a power of two x: the exponent n with 2^n == x. */
  function Log2(x: int): (n: nat)
    requires IsPowerOfTwo(x)
    ensures Pow2(n) == x
    decreases x
  {
    if x == 1 then 0 else 1 + Log2(x / 2)
  }

  lemma {:induction false} Pow2Add(a: nat, b: nat)
    ensures Pow2(a + b) == Pow2(a) * Pow2(b)
  {
    if a > 0 {
      Pow2Add(a - 1, b);
      assert Pow2(a + b) == 2 * Pow2(a - 1 + b);
    }
  }

  /** A positive multiple of n is at least n. */
  lemma MulAtLeast(k: int, n: int)
    requires k >= 1 && n > 0
    ensures k * n >= n
  {
    assert k * n == n + (k - 1) * n;
    assert (k - 1) * n >= 0;
  }

  /** Division and remainder are determined by the defining equation and the bound. */
  lemma DivModUnique(a: int, n: int, d: int, r: int)
    requires n > 0 && 0 <= r < n && a == d * n + r
    ensures a / n == d && a % n == r
  {
    var q, m := a / n, a % n;
    assert a == q * n + m;
    assert (d - q) * n == m - r by {
      assert (d - q) * n == d * n - q * n;
    }
    if d > q {
      MulAtLeast(d - q, n);
    } else if d < q {
      MulAtLeast(q - d, n);
    }
  }

  /** Splitting a remainder by p * q into a remainder by p and the next digit base q. */
  lemma DivModSplit(a: nat, p: nat, q: nat)
    requires p > 0 && q > 0
    ensures a / (p * q) == (a / p) / q
    ensures a % (p * q) == a % p + p * ((a / p) % q)
  {
    var b, c := a / p, (a / p) / q;
    var r := p * (b % q) + a % p;
    assert a == p * b + a % p;
    assert b == q * c + b % q;
    assert a == c * (p * q) + r by {
      calc {
        a;
        p * b + a % p;
        p * (q * c + b % q) + a % p;
        { assert p * (q * c + b % q) == (p * q) * c + p * (b % q); }
        c * (p * q) + r;
      }
    }
    assert p * (b % q) <= p * (q - 1);
    assert r < p * q;
    DivModUnique(a, p * q, c, r);
  }

  /** The three fields of an address. */
  datatype Fields = Fields(tag: nat, index: nat, offset: nat)

  /** The mask-and-shift of parse_address with offset width ob, index width ib and
      tag width tb: a & ((1 << w) - 1) is a % 2^w and a >> w is a / 2^w for a >= 0. */
  function Split(a: nat, ob: nat, ib: nat, tb: nat): (f: Fields)
    ensures f.offset < Pow2(ob) && f.index < Pow2(ib) && f.tag < Pow2(tb)
  {
    Fields((a / Pow2(ob + ib)) % Pow2(tb), (a / Pow2(ob)) % Pow2(ib), a % Pow2(ob))
  }

  /** (tag << (ib + ob)) | (index << ob) | offset, for fields within their widths. */
  function Assemble(f: Fields, ob: nat, ib: nat): nat
  {
    f.tag * Pow2(ob + ib) + f.index * Pow2(ob) + f.offset
  }

  /** Reassembling the fields gives back the address truncated to ob + ib + tb bits. */
  lemma SplitAssemble(a: nat, ob: nat, ib: nat, tb: nat)
    ensures Assemble(Split(a, ob, ib, tb), ob, ib) == a % Pow2(ob + ib + tb)
  {
    var f := Split(a, ob, ib, tb);
    Pow2Add(ob, ib);
    Pow2Add(ob + ib, tb);
    DivModSplit(a, Pow2(ob), Pow2(ib));
    DivModSplit(a, Pow2(ob + ib), Pow2(tb));
    assert a % Pow2(ob + ib) == f.offset + Pow2(ob) * f.index;
    assert a % Pow2(ob + ib + tb) == a % Pow2(ob + ib) + Pow2(ob + ib) * f.tag;
  }

  /** Three digits t, i, o in the mixed radix (q, p) are read back by / and %. */
  lemma MixedRadixDigits(t: nat, i: nat, o: nat, p: nat, q: nat)
    requires p > 0 && q > 0 && o < p && i < q
    ensures (t * (p * q) + i * p + o) % p == o
    ensures ((t * (p * q) + i * p + o) / p) % q == i
    ensures (t * (p * q) + i * p + o) / (p * q) == t
  {
    var a := t * (p * q) + i * p + o;
    assert a == (t * q + i) * p + o by {
      assert t * (p * q) == (t * q) * p;
      assert (t * q + i) * p == (t * q) * p + i * p;
    }
    DivModUnique(a, p, t * q + i, o);
    DivModUnique(t * q + i, q, t, i);
    DivModSplit(a, p, q);
  }

  /** Fields within their widths survive assembly and splitting unchanged. */
  lemma AssembleSplit(f: Fields, ob: nat, ib: nat, tb: nat)
    requires f.offset < Pow2(ob) && f.index < Pow2(ib) && f.tag < Pow2(tb)
    ensures Split(Assemble(f, ob, ib), ob, ib, tb) == f
  {
    Pow2Add(ob, ib);
    MixedRadixDigits(f.tag, f.index, f.offset, Pow2(ob), Pow2(ib));
    DivModUnique(f.tag, Pow2(tb), 0, f.tag);
  }

  /** A single leading 'x' marker is dropped before the digits are parsed. */
  function StripMarker(s: string): (r: string)
    ensures |s| > 0 && s[0] == 'x' ==> r == s[1..]
    ensures !(|s| > 0 && s[0] == 'x') ==> r == s
  {
    if |s| > 0 && s[0] == 'x' then s[1..] else s
  }

  function OffsetBits(blockSize: int): nat
    requires IsPowerOfTwo(blockSize)
  {
    Log2(blockSize)
  }

  function IndexBits(numSets: int): nat
    requires IsPowerOfTwo(numSets)
  {
    Log2(numSets)
  }

  /** tag_bits: what is left of the address space after the index and offset bits; it
      may be negative. When it is not, the 2^tag_bits tags, the sets and the bytes of a
      block together cover the address space exactly. */
  function TagBits(addressSpace: int, blockSize: int, numSets: int): (tb: int)
    requires IsPowerOfTwo(blockSize) && IsPowerOfTwo(numSets)
    ensures tb + IndexBits(numSets) + OffsetBits(blockSize) == addressSpace
    ensures tb >= 0 ==> Pow2(tb) * numSets * blockSize == Pow2(addressSpace)
  {
    var ib, ob := IndexBits(numSets), OffsetBits(blockSize);
    var tb := addressSpace - ib - ob;
    if tb >= 0 then
      Pow2Add(tb, ib);
      Pow2Add(tb + ib, ob);
      tb
    else
      tb
  }

  /** CacheSimulator.parse_address, where numSets is len(self.cache). */
  function ParseAddress(addressSpace: int, blockSize: int, numSets: int, address: string): (r: Result<Fields>)
    requires IsPowerOfTwo(blockSize) && IsPowerOfTwo(numSets)
    ensures Text.ParseHex(StripMarker(address)).Err? ==> r == Err(InvalidHexLiteral)
    ensures Text.ParseHex(StripMarker(address)).Ok? && TagBits(addressSpace, blockSize, numSets) < 0 ==>
              r == Err(NegativeShiftCount)
    ensures Text.ParseHex(StripMarker(address)).Ok? && TagBits(addressSpace, blockSize, numSets) >= 0 ==> r.Ok?
    ensures r.Ok? ==> r.value.offset < blockSize && r.value.index < numSets
                      && r.value.tag < Pow2(TagBits(addressSpace, blockSize, numSets))
    ensures r.Ok? ==> addressSpace >= 0 && Text.ParseHex(StripMarker(address)).Ok?
                      && Assemble(r.value, OffsetBits(blockSize), IndexBits(numSets))
                         == Text.ParseHex(StripMarker(address)).value % Pow2(addressSpace)
  {
    match Text.ParseHex(StripMarker(address))
    case Err(e) => Err(e)
    case Ok(a) =>
      var ob, ib := OffsetBits(blockSize), IndexBits(numSets);
      var tb := addressSpace - ib - ob;
      if tb < 0 then Err(NegativeShiftCount)
      else
        SplitAssemble(a, ob, ib, tb);
        Ok(Split(a, ob, ib, tb))
  }

  /** The leading 'x' is optional: an address parses the same with or without it, and
      a second 'x' is not a digit, so "xx" followed by digits is an invalid literal. */
  lemma MarkerOptional(addressSpace: int, blockSize: int, numSets: int, digits: string)
    requires IsPowerOfTwo(blockSize) && IsPowerOfTwo(numSets)
    requires digits == [] || digits[0] != 'x'
    ensures ParseAddress(addressSpace, blockSize, numSets, "x" + digits)
            == ParseAddress(addressSpace, blockSize, numSets, digits)
    ensures ParseAddress(addressSpace, blockSize, numSets, "xx" + digits) == Err(InvalidHexLiteral)
  {
    assert ("x" + digits)[1..] == digits;
    assert ("xx" + digits)[1..] == "x" + digits;
    assert !Text.IsHexDigit(("x" + digits)[0]);
  }

  /** An address already within addressSpace bits, with a tag width that is not negative,
      is parsed and reproduced exactly by its fields. */
  lemma ParseAddressExact(addressSpace: int, blockSize: int, numSets: int, address: string, a: nat)
    requires IsPowerOfTwo(blockSize) && IsPowerOfTwo(numSets)
    requires Text.ParseHex(StripMarker(address)) == Ok(a) && 0 <= addressSpace && a < Pow2(addressSpace)
    requires TagBits(addressSpace, blockSize, numSets) >= 0
    ensures ParseAddress(addressSpace, blockSize, numSets, address).Ok?
    ensures Assemble(ParseAddress(addressSpace, blockSize, numSets, address).value,
                     OffsetBits(blockSize), IndexBits(numSets)) == a
  {
    DivModUnique(a, Pow2(addressSpace), 0, a);
  }
}
