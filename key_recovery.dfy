/** Table scrambling in MRG archives and the recovery of its key.

    The table is stored scrambled: byte i of the plain table is
    rol8(raw[i], 1) ^ k_i, where k_0 is an unknown 8-bit key and
    k_{i+1} = k_i + (n - i) mod 256 for an n-byte table. The key is not
    stored anywhere; `guess_key` recovers it from one known fact, namely that
    the last four plain bytes spell out the archive's size, little-endian.

    Line numbers in this module refer to src/fmt/fc01/mrg_archive_decoder.cc. */
module KeyRecovery {
  import opened Bytes
  import opened Outcomes

  // ---------------------------------------------------------------------
  // The key schedule
  // ---------------------------------------------------------------------

  /** lo + (lo + 1) + ... + hi, and 0 when hi < lo. */
  function RangeSum(lo: int, hi: int): int
    decreases hi - lo
  {
    if hi < lo then 0 else RangeSum(lo, hi - 1) + hi
  }

  lemma {:induction false} RangeSumSplit(lo: int, mid: int, hi: int)
    requires lo - 1 <= mid <= hi
    ensures RangeSum(lo, hi) == RangeSum(lo, mid) + RangeSum(mid + 1, hi)
    decreases hi - mid
  {
    if mid < hi {
      RangeSumSplit(lo, mid, hi - 1);
    }
  }

  /** (a mod 256 + b) mod 256 == (a + b) mod 256 */
  lemma ModAdd(a: int, b: int)
    ensures (a % 0x100 + b) % 0x100 == (a + b) % 0x100
  {
    var q := a / 0x100;
    assert a == 0x100 * q + a % 0x100;
    assert a + b == (a % 0x100 + b) + 0x100 * q;
  }

  /** The key used for byte j when descrambling an n-byte table from key k0:
      after byte i the key grows by n - i, in u8 arithmetic. */
  function KeyAt(k0: Byte, n: nat, j: nat): (k: Byte)
    ensures k == (k0 + RangeSum(n - j + 1, n)) % 0x100
  {
    if j == 0 then k0
    else
      RangeSumSplit(n - j + 1, n - j + 1, n);
      ModAdd(k0 + RangeSum(n - j + 2, n), n - j + 1);
      (KeyAt(k0, n, j - 1) + (n - (j - 1))) % 0x100
  }

  lemma KeyAtStep(k0: Byte, n: nat, j: nat)
    ensures KeyAt(k0, n, j + 1) == (KeyAt(k0, n, j) + (n - j)) % 0x100
  {
  }

  /** The descrambled table: what the loop at lines 58-62 leaves in the
      buffer when it starts from key k0. */
  function Descrambled(raw: seq<Byte>, k0: Byte): (plain: seq<Byte>)
    ensures |plain| == |raw|
  {
    seq(|raw|, i requires 0 <= i < |raw| => Xor(Rol1(raw[i]), KeyAt(k0, |raw|, i)))
  }

  /** The scrambling an archive writer applies: the inverse of Descrambled. */
  function Scrambled(plain: seq<Byte>, k0: Byte): (raw: seq<Byte>)
    ensures |raw| == |plain|
  {
    seq(|plain|, i requires 0 <= i < |plain| => Ror1(Xor(plain[i], KeyAt(k0, |plain|, i))))
  }

  lemma DescrambleScrambled(plain: seq<Byte>, k0: Byte)
    ensures Descrambled(Scrambled(plain, k0), k0) == plain
  {
    var raw := Scrambled(plain, k0);
    forall i | 0 <= i < |plain|
      ensures Descrambled(raw, k0)[i] == plain[i]
    {
      var k := KeyAt(k0, |plain|, i);
      RotationsInvert(Xor(plain[i], k));
      XorCancel(plain[i], k);
    }
  }

  lemma ScrambleDescrambled(raw: seq<Byte>, k0: Byte)
    ensures Scrambled(Descrambled(raw, k0), k0) == raw
  {
    var plain := Descrambled(raw, k0);
    forall i | 0 <= i < |raw|
      ensures Scrambled(plain, k0)[i] == raw[i]
    {
      var k := KeyAt(k0, |raw|, i);
      XorCancel(Rol1(raw[i]), k);
      RotationsInvert(raw[i]);
    }
  }

  // ---------------------------------------------------------------------
  // What guess_key computes
  // ---------------------------------------------------------------------

  /** The key after line 34: the key of the last table byte, chosen so that
      this byte descrambles to the top byte of the file size. */
  function LastKey(raw: seq<Byte>, fileSize: nat): Byte
    requires |raw| >= 1
  {
    Xor(Rol1(raw[|raw| - 1]), fileSize / 0x100_0000 % 0x100)
  }

  /** The key guess_key holds for the s-th byte from the end: the last key
      lowered by 2, 3, ..., s + 1. */
  function ProbeKey(raw: seq<Byte>, fileSize: nat, s: nat): Byte
    requires |raw| >= 1
  {
    (LastKey(raw, fileSize) - RangeSum(2, s + 1)) % 0x100
  }

  /** The byte guess_key recovers from raw[|raw| - 1 - s]. */
  function ProbeByte(raw: seq<Byte>, fileSize: nat, s: nat): Byte
    requires s < |raw|
  {
    Xor(Rol1(raw[|raw| - 1 - s]), ProbeKey(raw, fileSize, s))
  }

  function Pow256(e: nat): nat
  {
    if e == 0 then 1 else 0x100 * Pow256(e - 1)
  }

  /** last_offset after s steps: the recovered bytes accumulated big-endian
      from the end of the table backwards. It fits in s + 1 bytes, so the
      u32 shift at line 41 never drops a bit. */
  function Probed(raw: seq<Byte>, fileSize: nat, s: nat): (v: nat)
    requires s < |raw|
    ensures v < Pow256(s + 1)
    ensures v % 0x100 == ProbeByte(raw, fileSize, s)
  {
    if s == 0 then ProbeByte(raw, fileSize, 0)
    else AppendByte(Probed(raw, fileSize, s - 1), ProbeByte(raw, fileSize, s))
  }

  /** A value shifted up by one byte, with `low` in the freed byte. */
  function AppendByte(high: nat, low: Byte): (v: nat)
    ensures v % 0x100 == low
    ensures v < 0x100 * (high + 1)
  {
    high * 0x100 + low
  }

  /** The key guess_key returns: the last key rewound over the whole
      schedule (lines 45-46), that is, lowered by 2 + 3 + ... + |raw|. */
  function RewoundKey(raw: seq<Byte>, fileSize: nat): Byte
    requires |raw| >= 1
  {
    (LastKey(raw, fileSize) - RangeSum(2, |raw|)) % 0x100
  }

  /** guess_key's outcome (lines 31-48, with the walk corrected to stop
      after the fourth byte from the end): a key exactly when the four
      recovered bytes rebuild the file size. */
  function RecoverKey(raw: seq<Byte>, fileSize: nat): (r: Result<Byte>)
    ensures r.Failure? ==> r.error == KeyNotFound
    ensures r.Success? ==> |raw| >= 4 && Probed(raw, fileSize, 3) == fileSize
  {
    if |raw| < 4 || Probed(raw, fileSize, 3) != fileSize then Failure(KeyNotFound)
    else Success(RewoundKey(raw, fileSize))
  }

  // ---------------------------------------------------------------------
  // guess_key and the descrambling loop
  // ---------------------------------------------------------------------

  /** guess_key (lines 31-48), with the byte walk confined to the last four
      table bytes and a table shorter than four bytes reported as a failed
      guess. */
  method GuessKey(table: array<Byte>, fileSize: nat) returns (r: Result<Byte>)
    ensures r == RecoverKey(table[..], fileSize)
  {
    var n := table.Length;
    if n < 4 {
      return Failure(KeyNotFound);
    }
    var key, lastOffset := WalkStart(table, fileSize);
    var pos := 1;
    var i := n - 2;
    while i >= n - 4
      invariant n - 5 <= i <= n - 2
      invariant pos == n - i - 1
      invariant key == ProbeKey(table[..], fileSize, pos - 1)
      invariant lastOffset == Probed(table[..], fileSize, pos - 1)
    {
      pos := pos + 1;
      key, lastOffset := WalkStep(table, fileSize, pos, i, key, lastOffset);
      i := i - 1;
    }
    r := CheckAndRewind(table, fileSize, pos, key, lastOffset);
  }

  /** Lines 43-47: give up unless the recovered bytes rebuild the file
      size, else rewind the key to the first table byte. */
  method CheckAndRewind(table: array<Byte>, fileSize: nat, pos: nat, key: Byte, lastOffset: nat)
    returns (r: Result<Byte>)
    requires 1 <= pos <= table.Length
    requires key == ProbeKey(table[..], fileSize, pos - 1)
    ensures r == if lastOffset == fileSize then Success(RewoundKey(table[..], fileSize)) else Failure(KeyNotFound)
  {
    if lastOffset != fileSize {
      return Failure(KeyNotFound);
    }
    var first := Rewind(table, fileSize, pos, key);
    r := Success(first);
  }

  /** Lines 33-36: the key of the last table byte, and the byte it
      recovers, which is the top byte of the file size. */
  method WalkStart(table: array<Byte>, fileSize: nat) returns (key: Byte, lastOffset: nat)
    requires table.Length >= 1
    ensures key == ProbeKey(table[..], fileSize, 0)
    ensures lastOffset == Probed(table[..], fileSize, 0)
    ensures lastOffset == fileSize / 0x100_0000 % 0x100
  {
    var tmp := Rol1(table[table.Length - 1]);
    key := Xor(tmp, fileSize / 0x100_0000 % 0x100);
    lastOffset := Xor(tmp, key);
    XorSolve(tmp, fileSize / 0x100_0000 % 0x100, key);
    ProbeStart(table[..], fileSize);
  }

  lemma ProbeStart(raw: seq<Byte>, fileSize: nat)
    requires |raw| >= 1
    ensures ProbeKey(raw, fileSize, 0) == LastKey(raw, fileSize)
    ensures Probed(raw, fileSize, 0) == Xor(Rol1(raw[|raw| - 1]), LastKey(raw, fileSize))
  {
    assert RangeSum(2, 1) == 0;
  }

  /** Lines 39-41, after `++pos`: lower the key by pos, recover byte
      i = size - pos and shift it into the accumulated value. */
  method WalkStep(table: array<Byte>, fileSize: nat, pos: nat, i: nat, key: Byte, lastOffset: nat)
    returns (nextKey: Byte, nextOffset: nat)
    requires 2 <= pos <= 4 && i + pos == table.Length
    requires key == ProbeKey(table[..], fileSize, pos - 2)
    requires lastOffset == Probed(table[..], fileSize, pos - 2)
    ensures nextKey == ProbeKey(table[..], fileSize, pos - 1)
    ensures nextOffset == Probed(table[..], fileSize, pos - 1)
  {
    ProbeStep(table[..], fileSize, pos - 2, key, lastOffset);
    nextKey := (key - pos) % 0x100;
    var tmp := Rol1(table[i]);
    nextOffset := (lastOffset * 0x100) % U32Modulus + Xor(tmp, nextKey);
  }

  /** Lines 45-46: lower the key by pos + 1, ..., size in turn, which
      takes the key of byte size - pos back to the key of byte 0. */
  method Rewind(table: array<Byte>, fileSize: nat, pos: nat, key: Byte) returns (first: Byte)
    requires 1 <= pos <= table.Length
    requires key == (LastKey(table[..], fileSize) - RangeSum(2, pos)) % 0x100
    ensures first == RewoundKey(table[..], fileSize)
  {
    var n := table.Length;
    ghost var last := LastKey(table[..], fileSize);
    var p := pos;
    first := key;
    while p < n
      invariant pos <= p <= n
      invariant first == (last - RangeSum(2, p)) % 0x100
    {
      RewindStep(last, p);
      p := p + 1;
      first := (first - p) % 0x100;
    }
  }

  /** One step of guess_key's walk (lines 39-41) takes the key and the
      accumulated value from step s to step s + 1. */
  lemma ProbeStep(raw: seq<Byte>, fileSize: nat, s: nat, key: Byte, acc: nat)
    requires s < 3 && s + 2 <= |raw|
    requires key == ProbeKey(raw, fileSize, s) && acc == Probed(raw, fileSize, s)
    ensures (key - (s + 2)) % 0x100 == ProbeKey(raw, fileSize, s + 1)
    ensures (acc * 0x100) % U32Modulus + Xor(Rol1(raw[|raw| - 2 - s]), (key - (s + 2)) % 0x100)
            == Probed(raw, fileSize, s + 1)
  {
    ProbeKeyStep(raw, fileSize, s);
    ShiftFits(acc, s);
  }

  lemma ProbeKeyStep(raw: seq<Byte>, fileSize: nat, s: nat)
    requires |raw| >= 1
    ensures ProbeKey(raw, fileSize, s + 1) == (ProbeKey(raw, fileSize, s) - (s + 2)) % 0x100
  {
    ModAdd(LastKey(raw, fileSize) - RangeSum(2, s + 1), -(s + 2));
  }

  /** The u32 shift at line 41 loses no bit of a value of at most three
      bytes. */
  lemma ShiftFits(v: nat, s: nat)
    requires s <= 2 && v < Pow256(s + 1)
    ensures (v * 0x100) % U32Modulus == v * 0x100
  {
    assert Pow256(1) == 0x100;
    assert Pow256(2) == 0x1_0000;
    assert Pow256(3) == 0x100_0000;
    assert v * 0x100 < U32Modulus;
  }

  /** The outcome of guess_key as written: a key guess, or a read at a
      position outside the table (undefined behaviour in the source). */
  datatype Probe = Overrun(index: nat) | Guessed(result: Result<Byte>)

  /** guess_key exactly as written (lines 31-48). The walk index `i` is a
      size_t, so for a 4-byte table `i >= size - 4` is `i >= 0`, which never
      fails: after byte 0 the index wraps to SIZE_MAX and the read leaves the
      table. Tables of 0 and 1 bytes read outside it too, and tables of 2 and
      3 bytes skip the walk. Table lengths stay below 2^32 because `pos` is a
      u32 and read_table never builds a longer table. */
  method GuessKeyAsWritten(table: array<Byte>, fileSize: nat) returns (r: Probe)
    requires table.Length < U32Modulus
    ensures r.Overrun? <==> table.Length in {0, 1, 4}
    ensures r.Overrun? ==> r.index == SizeModulus - 1
    ensures table.Length >= 5 ==> r == Guessed(RecoverKey(table[..], fileSize))
    ensures table.Length in {2, 3} ==>
      r == Guessed(if fileSize == 0 then Success(RewoundKey(table[..], fileSize)) else Failure(KeyNotFound))
  {
    var n := table.Length;
    // size_t arithmetic: a difference below zero wraps to 2^64 minus it
    var last := if n >= 1 then n - 1 else SizeModulus - 1;
    if last >= n {
      return Overrun(last);
    }
    var key, lastOffset := WalkStart(table, fileSize);
    var pos := 1;
    var i := if n >= 2 then n - 2 else n - 2 + SizeModulus;
    var bound := if n >= 4 then n - 4 else n - 4 + SizeModulus;
    while i >= bound
      invariant 0 <= i < SizeModulus
      invariant n < 4 ==> pos == 1 && i == (if n >= 2 then n - 2 else SizeModulus - 1)
      invariant n >= 4 ==> 1 <= pos <= 4
      invariant n >= 4 ==> i + pos == n - 1 || (n == 4 && pos == 4 && i == SizeModulus - 1)
      invariant key == ProbeKey(table[..], fileSize, pos - 1)
      invariant lastOffset == Probed(table[..], fileSize, pos - 1)
      invariant n < 4 ==> lastOffset == fileSize / 0x100_0000 % 0x100
      decreases if i < n then i + 1 else 0
    {
      if i >= n {
        return Overrun(i);
      }
      pos := pos + 1;
      key, lastOffset := WalkStep(table, fileSize, pos, i, key, lastOffset);
      i := if i >= 1 then i - 1 else SizeModulus - 1;
    }
    TopByteOnlyForZero(fileSize);
    var guess := CheckAndRewind(table, fileSize, pos, key, lastOffset);
    r := Guessed(guess);
  }

  /** One step of the rewind loop lowers the key by the next position. */
  lemma RewindStep(last: int, pos: int)
    requires pos >= 1
    ensures ((last - RangeSum(2, pos)) % 0x100 - (pos + 1)) % 0x100 == (last - RangeSum(2, pos + 1)) % 0x100
  {
    assert RangeSum(2, pos + 1) == RangeSum(2, pos) + pos + 1;
    ModAdd(last - RangeSum(2, pos), -(pos + 1));
  }

  /** A size equals its own top byte only when it is zero. */
  lemma TopByteOnlyForZero(fileSize: nat)
    ensures fileSize / 0x100_0000 % 0x100 == fileSize <==> fileSize == 0
  {
    if fileSize >= 0x100 {
      assert fileSize / 0x100_0000 % 0x100 < 0x100;
    } else {
      assert fileSize / 0x100_0000 == 0;
    }
  }

  /** The descrambling loop of lines 58-62, in place. */
  method Descramble(table: array<Byte>, key: Byte)
    modifies table
    ensures table[..] == Descrambled(old(table[..]), key)
  {
    var n := table.Length;
    var k := key;
    for i := 0 to n
      invariant k == KeyAt(key, n, i)
      invariant forall j {:trigger table[j]} :: 0 <= j < i ==> table[j] == Xor(Rol1(old(table[j])), KeyAt(key, n, j))
      invariant forall j :: i <= j < n ==> table[j] == old(table[j])
    {
      table[i] := Xor(Rol1(table[i]), k);
      KeyAtStep(key, n, i);
      k := (k + (n - i)) % 0x100;
    }
  }

  // ---------------------------------------------------------------------
  // Key recovery and descrambling agree
  // ---------------------------------------------------------------------

  /** Rewinding lands on the right keys: descrambling from RewoundKey uses,
      for the s-th byte from the end, exactly the key guess_key used for it. */
  lemma RewindMatchesProbe(raw: seq<Byte>, fileSize: nat, s: nat)
    requires s < |raw|
    ensures KeyAt(RewoundKey(raw, fileSize), |raw|, |raw| - 1 - s) == ProbeKey(raw, fileSize, s)
  {
    var n := |raw|;
    var top := LastKey(raw, fileSize);
    RangeSumSplit(2, s + 1, n);
    ModAdd(top - RangeSum(2, n), RangeSum(s + 2, n));
  }

  /** The four bytes guess_key rebuilds are the last four descrambled bytes. */
  lemma ProbedIsDescrambledTail(raw: seq<Byte>, fileSize: nat)
    requires |raw| >= 4
    ensures Probed(raw, fileSize, 3) == LE32(Descrambled(raw, RewoundKey(raw, fileSize)), |raw| - 4)
  {
    var n := |raw|;
    var plain := Descrambled(raw, RewoundKey(raw, fileSize));
    TailIsProbedBytes(raw, fileSize);
    LE32Slice(plain, n - 4);
    ProbedUnfolds(raw, fileSize);
  }

  /** The last four descrambled bytes are the four bytes guess_key recovers. */
  lemma TailIsProbedBytes(raw: seq<Byte>, fileSize: nat)
    requires |raw| >= 4
    ensures Descrambled(raw, RewoundKey(raw, fileSize))[|raw| - 4..|raw|] == ProbedBytes(raw, fileSize)
  {
    var n := |raw|;
    var tail := Descrambled(raw, RewoundKey(raw, fileSize))[n - 4..n];
    forall i | 0 <= i < 4
      ensures tail[i] == ProbedBytes(raw, fileSize)[i]
    {
      DescrambledTailByte(raw, fileSize, 3 - i, n - 4 + i);
    }
  }

  /** The s-th descrambled byte from the end is the byte guess_key recovers
      for it. */
  lemma DescrambledTailByte(raw: seq<Byte>, fileSize: nat, s: nat, j: nat)
    requires s < |raw| && j == |raw| - 1 - s
    ensures Descrambled(raw, RewoundKey(raw, fileSize))[j] == ProbeByte(raw, fileSize, s)
  {
    RewindMatchesProbe(raw, fileSize, s);
  }

  /** The four bytes guess_key recovers, in table order. */
  function ProbedBytes(raw: seq<Byte>, fileSize: nat): seq<Byte>
    requires |raw| >= 4
  {
    [ProbeByte(raw, fileSize, 3), ProbeByte(raw, fileSize, 2), ProbeByte(raw, fileSize, 1), ProbeByte(raw, fileSize, 0)]
  }

  /** Probed after all four steps is the little-endian u32 of the recovered
      bytes. */
  lemma ProbedUnfolds(raw: seq<Byte>, fileSize: nat)
    requires |raw| >= 4
    ensures Probed(raw, fileSize, 3) == LE32(ProbedBytes(raw, fileSize), 0)
  {
    var p0 := Probed(raw, fileSize, 0);
    var p1 := Probed(raw, fileSize, 1);
    var p2 := Probed(raw, fileSize, 2);
    assert p1 == p0 * 0x100 + ProbeByte(raw, fileSize, 1);
    assert p2 == p1 * 0x100 + ProbeByte(raw, fileSize, 2);
  }

  /** Agreement: when guess_key succeeds, the descrambled table ends with
      the archive size as a little-endian u32. */
  lemma KeyRecoverySound(raw: seq<Byte>, fileSize: nat, key: Byte)
    requires RecoverKey(raw, fileSize) == Success(key)
    ensures |raw| >= 4
    ensures LE32(Descrambled(raw, key), |raw| - 4) == fileSize
  {
    ProbedIsDescrambledTail(raw, fileSize);
  }

  /** Completeness: any key under which the table ends with the archive
      size is the key guess_key finds. */
  lemma KeyRecoveryComplete(raw: seq<Byte>, fileSize: nat, key: Byte)
    requires |raw| >= 4
    requires LE32(Descrambled(raw, key), |raw| - 4) == fileSize
    ensures RecoverKey(raw, fileSize) == Success(key)
  {
    RewoundKeyIsKey(raw, fileSize, key);
    ProbedIsDescrambledTail(raw, fileSize);
  }

  /** Under the same hypothesis, rewinding the last key gives `key`. */
  lemma RewoundKeyIsKey(raw: seq<Byte>, fileSize: nat, key: Byte)
    requires |raw| >= 4
    requires LE32(Descrambled(raw, key), |raw| - 4) == fileSize
    ensures RewoundKey(raw, fileSize) == key
  {
    var n := |raw|;
    var plain := Descrambled(raw, key);
    var k := KeyAt(key, n, n - 1);
    TopByteOfSize(plain, fileSize);
    XorSolve(Rol1(raw[n - 1]), k, plain[n - 1]);
    assert LastKey(raw, fileSize) == k;
    RewindUndoesSchedule(key, n);
  }

  /** The last byte of a little-endian u32 is its top byte. */
  lemma TopByteOfSize(plain: seq<Byte>, fileSize: nat)
    requires |plain| >= 4 && LE32(plain, |plain| - 4) == fileSize
    ensures fileSize / 0x100_0000 % 0x100 == plain[|plain| - 1]
  {
    var top := fileSize / 0x100_0000;
    assert top == plain[|plain| - 1];
  }

  /** Lowering the key of the last byte by 2 + ... + n gives back the
      starting key. */
  lemma RewindUndoesSchedule(key: Byte, n: nat)
    requires n >= 1
    ensures (KeyAt(key, n, n - 1) - RangeSum(2, n)) % 0x100 == key
  {
    var sum := RangeSum(2, n);
    ModAdd(key + sum, -sum);
  }

  /** There is at most one key under which the table ends with the size. */
  lemma KeyIsUnique(raw: seq<Byte>, fileSize: nat, k1: Byte, k2: Byte)
    requires |raw| >= 4
    requires LE32(Descrambled(raw, k1), |raw| - 4) == fileSize
    requires LE32(Descrambled(raw, k2), |raw| - 4) == fileSize
    ensures k1 == k2
  {
    KeyRecoveryComplete(raw, fileSize, k1);
    KeyRecoveryComplete(raw, fileSize, k2);
  }

  /** Key recovery looks at the table's length and its last four bytes only. */
  lemma KeyRecoveryReadsLastFour(a: seq<Byte>, b: seq<Byte>, fileSize: nat)
    requires |a| == |b|
    requires forall j :: 0 <= j < |a| && j >= |a| - 4 ==> a[j] == b[j]
    ensures RecoverKey(a, fileSize) == RecoverKey(b, fileSize)
  {
    if |a| >= 4 {
      SameLastKey(a, b, fileSize);
      SameProbedBytes(a, b, fileSize);
      ProbedUnfolds(a, fileSize);
      ProbedUnfolds(b, fileSize);
    }
  }

  lemma SameLastKey(a: seq<Byte>, b: seq<Byte>, fileSize: nat)
    requires 1 <= |a| == |b| && a[|a| - 1] == b[|b| - 1]
    ensures LastKey(a, fileSize) == LastKey(b, fileSize)
    ensures RewoundKey(a, fileSize) == RewoundKey(b, fileSize)
  {
  }

  lemma SameProbedBytes(a: seq<Byte>, b: seq<Byte>, fileSize: nat)
    requires 4 <= |a| == |b|
    requires LastKey(a, fileSize) == LastKey(b, fileSize)
    requires forall j :: |a| - 4 <= j < |a| ==> a[j] == b[j]
    ensures ProbedBytes(a, fileSize) == ProbedBytes(b, fileSize)
  {
    SameProbeByte(a, b, fileSize, 0);
    SameProbeByte(a, b, fileSize, 1);
    SameProbeByte(a, b, fileSize, 2);
    SameProbeByte(a, b, fileSize, 3);
  }

  lemma SameProbeByte(a: seq<Byte>, b: seq<Byte>, fileSize: nat, s: nat)
    requires s < |a| == |b|
    requires LastKey(a, fileSize) == LastKey(b, fileSize)
    requires a[|a| - 1 - s] == b[|b| - 1 - s]
    ensures ProbeByte(a, fileSize, s) == ProbeByte(b, fileSize, s)
  {
    assert ProbeKey(a, fileSize, s) == ProbeKey(b, fileSize, s);
  }

  /** A table scrambled with any key, whose plain form ends with the archive
      size, is unscrambled exactly: the key is recovered and descrambling
      gives back the plain table byte for byte. */
  lemma ScrambledTableRecovers(plain: seq<Byte>, fileSize: nat, key: Byte)
    requires |plain| >= 4
    requires LE32(plain, |plain| - 4) == fileSize
    ensures RecoverKey(Scrambled(plain, key), fileSize) == Success(key)
    ensures Descrambled(Scrambled(plain, key), key) == plain
  {
    DescrambleScrambled(plain, key);
    DescrambledRecovers(Scrambled(plain, key), plain, fileSize, key);
  }

  /** A table that descrambles under `key` to a table ending with the size
      gives back `key`. */
  lemma DescrambledRecovers(raw: seq<Byte>, plain: seq<Byte>, fileSize: nat, key: Byte)
    requires |plain| >= 4 && Descrambled(raw, key) == plain
    requires LE32(plain, |plain| - 4) == fileSize
    ensures RecoverKey(raw, fileSize) == Success(key)
  {
    assert |raw| == |plain|;
    KeyRecoveryComplete(raw, fileSize, key);
  }
}
