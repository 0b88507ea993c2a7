/** The byte loops behind a Service's addresses: grafting a suffix, and 128-bit offsets with borrow and carry. */
module ServiceAddresses {
  import opened Powers
  import opened Bytes
  import opened Addresses
  import opened AddressRange
  import Subnet

  // ---------------------------------------------------------------- byte loops

  /** Takes each byte from the prefix, the suffix, or both, by its bit position. */
  method CombinePrefixSuffix(pfx: Prefix, suffix: Octets) returns (r: Address)
    requires pfx.Valid()
    ensures r == Combine(pfx, AddrFrom16(suffix))
  {
    var prefixBytes, prefixLen := As16(pfx.addr), pfx.bits;
    var result := new byte[16](_ => 0);
    for i := 0 to 16
      invariant forall j :: 0 <= j < i ==> result[j] == GraftByte(prefixBytes[j], suffix[j], BitsInByte(prefixLen, j))
    {
      var bitPos := i * 8;
      GraftByteEnds(prefixBytes[i], suffix[i]);
      if bitPos + 8 <= prefixLen {
        result[i] := prefixBytes[i];
      } else if bitPos >= prefixLen {
        result[i] := suffix[i];
      } else {
        var mask := ShiftLeft(255, 8 - (prefixLen - bitPos));
        MaskedGraft(prefixBytes[i], suffix[i], prefixLen - bitPos);
        result[i] := Or(And(prefixBytes[i], mask), And(suffix[i], Complement(mask)));
      }
    }
    AddressBytes(0, suffix);
    GraftedBytes(pfx, AddrFrom16(suffix), result[..]);
    return AddrFrom16(result[..]);
  }

  /** The value of a byte sequence, most significant byte split off. */
  lemma {:induction false} ValueOfFirst(b: byte, s: seq<byte>)
    ensures Value([b] + s) == b * Pow2(8 * |s|) + Value(s)
  {
    if s == [] {
      assert [b] + s == [b];
      ValueOfLast([b]);
    } else {
      var n := |s| - 1;
      ValueOfFirst(b, s[..n]);
      ValueOfLast(s);
      ValueOfLast([b] + s);
      assert ([b] + s)[..n + 1] == [b] + s[..n];
      NextByte(n);
      PrependDigit(b, Pow2(8 * n), Value(s[..n]), s[n]);
    }
  }

  /** Appending a low digit shifts the digit in front along with the rest. */
  lemma PrependDigit(b: int, p: int, v: int, low: int)
    ensures (b * p + v) * 256 + low == b * (p * 256) + (v * 256 + low)
  {
  }

  lemma NextByte(n: nat)
    ensures Pow2(8 * (n + 1)) == Pow2(8 * n) * 256
  {
    Pow2Of8();
    Pow2Add(8 * n, 8);
  }

  /** Wrapping a digit difference to a byte is what the borrow flag says it is. */
  lemma BorrowDigit(t: byte, b: byte, borrow: int)
    requires 0 <= borrow <= 1
    ensures (t as int - b as int - borrow) % 256
         == t as int - b as int - borrow + 256 * (if t < b || (t == b && borrow == 1) then 1 else 0)
  {
  }

  /** A digit sum splits into the byte kept and the carry. */
  lemma CarryDigit(sum: int)
    requires 0 <= sum < 512
    ensures 0 <= sum / 256 <= 1 && 0 <= sum % 256 < 256
    ensures sum % 256 + 256 * (sum / 256) == sum
  {
  }

  /** What a borrow or carry flag is worth at weight `p`. */
  function Owed(flag: int, p: nat): nat {
    if flag == 0 then 0 else p
  }

  /** One digit of a subtraction with borrow. */
  lemma SubtractDigit(t: int, b: int, borrow: int, o: int, borrow': int, p: nat, vt: int, vb: int, vo: int)
    requires 0 <= borrow <= 1 && 0 <= borrow' <= 1
    requires o == t - b - borrow + 256 * borrow'
    requires vo == vt - vb + Owed(borrow, p)
    ensures o * p + vo == (t * p + vt) - (b * p + vb) + Owed(borrow', p * 256)
  {
    assert o * p == t * p - b * p - borrow * p + 256 * borrow' * p;
  }

  /** One digit of an addition with carry. */
  lemma AddDigit(x: int, y: int, carry: int, r: int, carry': int, p: nat, vx: int, vy: int, vr: int)
    requires 0 <= carry <= 1 && 0 <= carry' <= 1
    requires r + 256 * carry' == x + y + carry
    requires vr + Owed(carry, p) == vx + vy
    ensures (r * p + vr) + Owed(carry', p * 256) == (x * p + vx) + (y * p + vy)
  {
    assert r * p + 256 * carry' * p == x * p + y * p + carry * p;
  }

  lemma SuffixStep(s: Octets, i: nat)
    requires i < 16
    ensures Value(s[i..]) == s[i] * Pow2(8 * (15 - i)) + Value(s[i + 1..])
  {
    assert s[i..] == [s[i]] + s[i + 1..];
    ValueOfFirst(s[i], s[i + 1..]);
  }

  /** Bytes `i` onwards hold target - base, short of what the borrow still owes. */
  ghost predicate Subtracted(r: Octets, target: Octets, base: Octets, i: nat, borrow: int)
    requires i <= 16
  {
    Value(r[i..]) == Value(target[i..]) - Value(base[i..]) + Owed(borrow, Pow2(8 * (16 - i)))
  }

  lemma SubtractByte(r: Octets, target: Octets, base: Octets, i: nat, borrow: int, o: byte, borrow': int)
    requires i < 16 && Subtracted(r, target, base, i + 1, borrow) && 0 <= borrow <= 1 && 0 <= borrow' <= 1
    requires o == target[i] - base[i] - borrow + 256 * borrow'
    ensures Subtracted(r[i := o], target, base, i, borrow')
  {
    var r' := r[i := o];
    assert r'[i + 1..] == r[i + 1..];
    SuffixStep(target, i);
    SuffixStep(base, i);
    SuffixStep(r', i);
    NextByte(15 - i);
    SubtractDigit(target[i], base[i], borrow, o, borrow', Pow2(8 * (15 - i)),
                  Value(target[i + 1..]), Value(base[i + 1..]), Value(r[i + 1..]));
  }

  /** Bytes `i` onwards hold base + offset, short of what was carried out. */
  ghost predicate Added(r: Octets, base: Octets, offset: Octets, i: nat, carry: int)
    requires i <= 16
  {
    Value(r[i..]) + Owed(carry, Pow2(8 * (16 - i))) == Value(base[i..]) + Value(offset[i..])
  }

  lemma AddByte(r: Octets, base: Octets, offset: Octets, i: nat, carry: int, o: byte, carry': int)
    requires i < 16 && Added(r, base, offset, i + 1, carry) && 0 <= carry <= 1 && 0 <= carry' <= 1
    requires o + 256 * carry' == base[i] + offset[i] + carry
    ensures Added(r[i := o], base, offset, i, carry')
  {
    var r' := r[i := o];
    assert r'[i + 1..] == r[i + 1..];
    SuffixStep(offset, i);
    SuffixStep(base, i);
    SuffixStep(r', i);
    NextByte(15 - i);
    AddDigit(base[i], offset[i], carry, o, carry', Pow2(8 * (15 - i)),
             Value(base[i + 1..]), Value(offset[i + 1..]), Value(r[i + 1..]));
  }

  /** Nothing is left to process before byte 16, and byte 0 onwards is everything. */
  lemma WholeAndEmpty(s: Octets)
    ensures s[16..] == [] && s[0..] == s
    ensures Value(s) < SPACE == Pow2(8 * 16)
  {
    SpaceIsPow2();
    ValueBound(s);
  }

  lemma AllSubtracted(r: Octets, target: Octets, base: Octets, borrow: int)
    requires Subtracted(r, target, base, 0, borrow) && 0 <= borrow <= 1
    ensures Value(r) == Value(target) - Value(base) + Owed(borrow, SPACE)
    ensures borrow == 0 <==> Value(base) <= Value(target)
  {
    WholeAndEmpty(r);
    WholeAndEmpty(target);
    WholeAndEmpty(base);
  }

  lemma AllAdded(r: Octets, base: Octets, offset: Octets, carry: int)
    requires Added(r, base, offset, 0, carry) && 0 <= carry <= 1
    ensures Value(r) + Owed(carry, SPACE) == Value(base) + Value(offset)
    ensures carry == 0 <==> Value(base) + Value(offset) < SPACE
  {
    WholeAndEmpty(r);
    WholeAndEmpty(base);
    WholeAndEmpty(offset);
  }

  /** Byte-wise subtraction with borrow: exact, and flagged exactly when the target is below the base,
      in which case the bytes hold the distance modulo 2^128. */
  method CalculateIPOffset(base: Address, target: Address) returns (offset: Octets, ok: bool)
    ensures ok <==> base <= target
    ensures Value(offset) == if base <= target then target - base else target - base + SPACE
  {
    var baseBytes, targetBytes := As16(base), As16(target);
    AddressBytes(base, baseBytes);
    AddressBytes(target, targetBytes);
    WholeAndEmpty(baseBytes);
    WholeAndEmpty(targetBytes);
    var result := new byte[16](_ => 0);
    WholeAndEmpty(result[..]);
    var borrow := 0;
    for i := 16 downto 0
      invariant 0 <= borrow <= 1
      invariant Subtracted(result[..], targetBytes, baseBytes, i, borrow)
    {
      var t: int, b: int := targetBytes[i], baseBytes[i];
      ghost var before, borrowIn := result[..], borrow;
      result[i] := (t - b - borrow) % 256;
      borrow := if t < b || (t == b && borrow == 1) then 1 else 0;
      BorrowDigit(t, b, borrowIn);
      SubtractByte(before, targetBytes, baseBytes, i, borrowIn, result[i], borrow);
      assert result[..] == before[i := result[i]];
    }
    offset, ok := result[..], borrow == 0;
    AllSubtracted(offset, targetBytes, baseBytes, borrow);
  }

  /** Byte-wise addition with carry: exact modulo 2^128, and flagged exactly when it wrapped. */
  method ApplyIPOffset(base: Address, offset: Octets) returns (r: Address, ok: bool)
    ensures ok <==> base + Value(offset) < SPACE
    ensures r == if base + Value(offset) < SPACE then base + Value(offset) else base + Value(offset) - SPACE
  {
    var baseBytes := As16(base);
    AddressBytes(base, baseBytes);
    WholeAndEmpty(baseBytes);
    WholeAndEmpty(offset);
    var result := new byte[16](_ => 0);
    WholeAndEmpty(result[..]);
    var carry := 0;
    for i := 16 downto 0
      invariant 0 <= carry <= 1
      invariant Added(result[..], baseBytes, offset, i, carry)
    {
      ghost var before, carryIn := result[..], carry;
      var sum: int := baseBytes[i] as int + offset[i] as int + carry;
      result[i] := sum % 256;
      carry := sum / 256;
      CarryDigit(sum);
      AddByte(before, baseBytes, offset, i, carryIn, result[i], carry);
      assert result[..] == before[i := result[i]];
    }
    AllAdded(result[..], baseBytes, offset, carry);
    r, ok := AddrFrom16(result[..]), carry == 0;
  }

  /** An offset lands inside the window exactly when base + offset does not pass its end. */
  method OffsetAddressWithin(base: Address, last: Address, offset: Octets) returns (r: Option<Address>)
    ensures r == if base + Value(offset) <= last then Some(base + Value(offset)) else None
  {
    var addr, ok := ApplyIPOffset(base, offset);
    if !ok {
      return None;
    }
    if addr < base || last < addr {
      return None;
    }
    return Some(addr);
  }

  /** Applying a computed offset to its own base returns the target. */
  method OffsetRoundTrip(base: Address, target: Address) returns (r: Address, ok: bool)
    ensures ok <==> base <= target
    ensures r == target
  {
    var offset, above := CalculateIPOffset(base, target);
    var carried;
    r, carried := ApplyIPOffset(base, offset);
    ok := above && carried;
  }
}
