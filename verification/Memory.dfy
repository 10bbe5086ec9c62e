// Target memory, and the 8-byte little-endian words through which ptrace reads and writes it.
module TargetMemory {
  import opened Common
  import opened Words

  /** The mapped bytes of the target. */
  type Memory = map<Address, Byte>

  /** The aligned word holding an address: `location & ~Address{7}`. */
  function Aligned(a: Address): Address {
    a - a % 8
  }

  predicate RangeMapped(m: Memory, a: Address, size: nat) {
    forall i :: 0 <= i < size ==> Plus(a, i) in m
  }

  /** The word at an address has the byte of each of its eight addresses. */
  ghost predicate WordIs(m: Memory, a: Address, w: Word) {
    && RangeMapped(m, a, 8)
    && forall k: nat | k < 8 :: Lane(w, k) == m[Plus(a, k)]
  }

  function WordAsAddress(w: Word): Address {
    w as int
  }

  /** What PTRACE_PEEKDATA reads. */
  method LoadWord(m: Memory, a: Address) returns (w: Word)
    requires RangeMapped(m, a, 8)
    ensures WordIs(m, a, w)
  {
    var b0, b1, b2, b3 := m[Plus(a, 0)], m[Plus(a, 1)], m[Plus(a, 2)], m[Plus(a, 3)];
    var b4, b5, b6, b7 := m[Plus(a, 4)], m[Plus(a, 5)], m[Plus(a, 6)], m[Plus(a, 7)];
    LanesOfPack(b0, b1, b2, b3, b4, b5, b6, b7);
    w := Pack(b0, b1, b2, b3, b4, b5, b6, b7);
  }

  /** What PTRACE_POKEDATA leaves behind. */
  function Poked(m: Memory, a: Address, w: Word): Memory {
    map x | x in m :: if Offset(x, a) < 8 then Lane(w, Offset(x, a)) else m[x]
  }

  // ---------- byte ranges ----------

  /** The reference form of a multi-byte store: one byte after another, wrapping at the top of the address space. */
  function PutBytes(m: Memory, a: Address, bytes: seq<Byte>): Memory {
    if bytes == [] then m
    else PutBytes(m, a, bytes[..|bytes| - 1])[Plus(a, |bytes| - 1) := bytes[|bytes| - 1]]
  }

  /** The bytes at a range of addresses. */
  function BytesAt(m: Memory, a: Address, size: nat): (r: seq<Byte>)
    requires RangeMapped(m, a, size)
    ensures |r| == size
  {
    seq(size, i requires 0 <= i < size => m[Plus(a, i)])
  }

  /** The byte range lies inside one aligned word. */
  predicate InOneWord(a: Address, size: nat) {
    a % 8 + size <= 8
  }

  lemma {:induction false} PutBytesKeys(m: Memory, a: Address, bytes: seq<Byte>)
    requires RangeMapped(m, a, |bytes|)
    ensures PutBytes(m, a, bytes).Keys == m.Keys
  {
    if bytes != [] {
      PutBytesKeys(m, a, bytes[..|bytes| - 1]);
      assert Plus(a, |bytes| - 1) in m;
    }
  }

  /** A store of at most 2^64 bytes puts each byte at its own address and changes nothing else. */
  lemma {:induction false} PutBytesAt(m: Memory, a: Address, bytes: seq<Byte>, x: Address)
    requires |bytes| <= ADDRESS_SPACE
    ensures x in PutBytes(m, a, bytes) <==> x in m || Offset(x, a) < |bytes|
    ensures x in PutBytes(m, a, bytes) ==>
              PutBytes(m, a, bytes)[x] == if Offset(x, a) < |bytes| then bytes[Offset(x, a)] else m[x]
  {
    if bytes != [] {
      var n := |bytes| - 1;
      PutBytesAt(m, a, bytes[..n], x);
      PlusOffset(a, n, x);
    }
  }
}
