// Bytes inside a 64-bit word, read and replaced by shifting and masking.
module Words {

  type Byte = bv8
  type Word = bv64

  /** Byte k of a little-endian word, counting from the low end. */
  function Lane(w: Word, k: nat): Byte {
    if k == 0 then (w & 0xff) as bv8 else Lane(w >> 8, k - 1)
  }

  predicate IsLaneShift(s: bv64) {
    s == 0 || s == 8 || s == 16 || s == 24 || s == 32 || s == 40 || s == 48 || s == 56
  }

  /** The source's `(location & 7) * 8`, as a shift amount. */
  function LaneShift(lane: nat): (s: bv64)
    requires lane < 8
    ensures IsLaneShift(s)
  {
    match lane
    case 0 => 0
    case 1 => 8
    case 2 => 16
    case 3 => 24
    case 4 => 32
    case 5 => 40
    case 6 => 48
    case _ => 56
  }

  function Extracted(w: Word, shift: bv64): Byte
    requires IsLaneShift(shift)
  {
    ((w >> shift) & 0xff) as bv8
  }

  lemma ExtractAfterShift(w: Word, t: bv64)
    requires IsLaneShift(t) && t != 56
    ensures Extracted(w >> 8, t) == Extracted(w, t + 8)
  {
  }

  lemma {:induction false} LaneIsExtracted(w: Word, lane: nat)
    requires lane < 8
    ensures Lane(w, lane) == Extracted(w, LaneShift(lane))
  {
    if lane > 0 {
      LaneIsExtracted(w >> 8, lane - 1);
      ExtractAfterShift(w, LaneShift(lane - 1));
    }
  }

  lemma ExtractFromMerged(w: Word, s: bv64, b: Byte, r: Word, t: bv64)
    requires IsLaneShift(s) && IsLaneShift(t)
    requires r == (w & !(0xff << s)) | ((b as bv64) << s)
    ensures Extracted(r, t) == if s == t then b else Extracted(w, t)
  {
    // One case per shift keeps the bit-level reasoning small.
    if s == 0 {} else if s == 8 {} else if s == 16 {} else if s == 24 {}
    else if s == 32 {} else if s == 40 {} else if s == 48 {} else {}
  }

  /** Byte t of r is byte t of w, except that byte s is b. */
  ghost predicate Merges(w: Word, s: bv64, b: Byte, r: Word) {
    forall t | IsLaneShift(t) :: Extracted(r, t) == if s == t then b else Extracted(w, t)
  }

  lemma MaskAndOrMerges(w: Word, s: bv64, b: Byte, r: Word)
    requires IsLaneShift(s) && r == (w & !(0xff << s)) | ((b as bv64) << s)
    ensures Merges(w, s, b, r)
  {
    forall t | IsLaneShift(t) ensures Extracted(r, t) == if s == t then b else Extracted(w, t) {
      ExtractFromMerged(w, s, b, r, t);
    }
  }

  lemma LanesOfMerge(w: Word, lane: nat, b: Byte, r: Word)
    requires lane < 8 && Merges(w, LaneShift(lane), b, r)
    ensures forall k: nat | k < 8 :: Lane(r, k) == if k == lane then b else Lane(w, k)
  {
    forall k: nat | k < 8 ensures Lane(r, k) == if k == lane then b else Lane(w, k) {
      LaneIsExtracted(r, k);
      LaneIsExtracted(w, k);
    }
  }

  /** The read_bytes step: shift a byte down and mask it out. */
  method ExtractByte(w: Word, lane: nat) returns (b: Byte)
    requires lane < 8
    ensures b == Lane(w, lane)
  {
    var shift := LaneShift(lane);
    LaneIsExtracted(w, lane);
    b := ((w >> shift) & 0xff) as bv8;
  }

  /** The write_bytes step: clear a byte's bits and or in the new ones. No other byte changes. */
  method MergeByte(w: Word, lane: nat, b: Byte) returns (r: Word)
    requires lane < 8
    ensures forall k: nat | k < 8 :: Lane(r, k) == if k == lane then b else Lane(w, k)
  {
    var shift := LaneShift(lane);
    r := (w & !(0xff << shift)) | ((b as bv64) << shift);
    MaskAndOrMerges(w, shift, b, r);
    LanesOfMerge(w, lane, b, r);
  }

  /** Byte 0 is the low byte, as on both architectures. */
  lemma LittleEndian()
    ensures var w: Word := 0x8877_6655_4433_2211;
            && Lane(w, 0) == 0x11 && Lane(w, 1) == 0x22 && Lane(w, 2) == 0x33 && Lane(w, 3) == 0x44
            && Lane(w, 4) == 0x55 && Lane(w, 5) == 0x66 && Lane(w, 6) == 0x77 && Lane(w, 7) == 0x88
  {
    var w: Word := 0x8877_6655_4433_2211;
    LaneIsExtracted(w, 0); LaneIsExtracted(w, 1); LaneIsExtracted(w, 2); LaneIsExtracted(w, 3);
    LaneIsExtracted(w, 4); LaneIsExtracted(w, 5); LaneIsExtracted(w, 6); LaneIsExtracted(w, 7);
  }

  function Pack(b0: Byte, b1: Byte, b2: Byte, b3: Byte, b4: Byte, b5: Byte, b6: Byte, b7: Byte): Word {
    (b0 as bv64) | ((b1 as bv64) << 8) | ((b2 as bv64) << 16) | ((b3 as bv64) << 24) |
    ((b4 as bv64) << 32) | ((b5 as bv64) << 40) | ((b6 as bv64) << 48) | ((b7 as bv64) << 56)
  }

  lemma LanesOfPack(b0: Byte, b1: Byte, b2: Byte, b3: Byte, b4: Byte, b5: Byte, b6: Byte, b7: Byte)
    ensures var w := Pack(b0, b1, b2, b3, b4, b5, b6, b7);
            && Lane(w, 0) == b0 && Lane(w, 1) == b1 && Lane(w, 2) == b2 && Lane(w, 3) == b3
            && Lane(w, 4) == b4 && Lane(w, 5) == b5 && Lane(w, 6) == b6 && Lane(w, 7) == b7
  {
    var w := Pack(b0, b1, b2, b3, b4, b5, b6, b7);
    LaneIsExtracted(w, 0); LaneIsExtracted(w, 1); LaneIsExtracted(w, 2); LaneIsExtracted(w, 3);
    LaneIsExtracted(w, 4); LaneIsExtracted(w, 5); LaneIsExtracted(w, 6); LaneIsExtracted(w, 7);
  }
}
