/** The hash chains of the compressor, on values: which earlier position each entry of m_hash and m_next stands
    for (src/http/miniz.c:2508-2537). */
module Chains {
  import opened Bits

  const RING := 32768        // TDEFL_LZ_DICT_SIZE
  const HASH_SIZE := 32768   // TDEFL_LZ_HASH_SIZE

  // ---------- the hash of three bytes ----------

  /** `(a << 10) ^ (b << 5) ^ c` in 15 bits. */
  function HashThree(a: bv32, b: bv32, c: bv32): bv32
  {
    ((a << 10) ^ (b << 5) ^ c) & 0x7FFF
  }

  /** `(a << 5) ^ b`. */
  function HashTwo(a: bv32, b: bv32): bv32
  {
    (a << 5) ^ b
  }

  /** `((hash << 5) ^ c) & 0x7FFF`. */
  function HashStep(h: bv32, c: bv32): bv32
  {
    ((h << 5) ^ c) & 0x7FFF
  }

  /** The running hash h will hash a, b and whatever comes next. */
  predicate Hashes(h: bv32, a: bv32, b: bv32)
  {
    (h << 5) & 0x7FFF == ((a << 10) ^ (b << 5)) & 0x7FFF
  }

  lemma TwoHashed(a: bv32, b: bv32)
    ensures Hashes(HashTwo(a, b), a, b)
  {
  }

  lemma StepHashed(h: bv32, a: bv32, b: bv32, c: bv32)
    requires Hashes(h, a, b)
    ensures HashStep(h, c) == HashThree(a, b, c) && Hashes(HashStep(h, c), b, c)
  {
  }

  /** The entry of m_hash. */
  function Slot(h: bv32): (s: nat)
    ensures s < HASH_SIZE
  {
    h as nat % HASH_SIZE
  }

  function Wide(b: Byte): bv32 { b as bv32 }

  /** The entry for the three bytes at k. */
  function SlotAt(input: seq<Byte>, k: nat): (s: nat)
    ensures s < HASH_SIZE
  {
    if k + 2 < |input| then Slot(HashThree(Wide(input[k]), Wide(input[k + 1]), Wide(input[k + 2]))) else 0
  }

  // ---------- chains ----------

  /** The last position before k, and not before `since`, whose three bytes have entry s; -1 if there is none. */
  function Prior(input: seq<Byte>, since: nat, s: nat, k: nat): (j: int)
    ensures -1 <= j < k && (j >= 0 ==> j >= since && SlotAt(input, j) == s)
    ensures forall i :: since <= i < k && i > j ==> SlotAt(input, i) != s
  {
    if k <= since then -1 else if SlotAt(input, k - 1) == s then k - 1 else Prior(input, since, s, k - 1)
  }

  /** A position in 16 bits; 0 stands for none, and for every 65536th position too. */
  function Mark(j: int): (m: nat)
    ensures m < 0x10000
  {
    if j < 0 then 0 else j % 0x10000
  }

  /** The positions since..ins are in the chains: each entry of `hash` is the last position with that hash, and
      the `next` of every position that the ring still has is the last one before it with the same hash. */
  ghost predicate Chained(hash: seq<int>, next: seq<int>, input: seq<Byte>, since: nat, ins: nat)
  {
    && |hash| == HASH_SIZE && |next| == RING && since <= ins && (ins == since || ins + 2 <= |input|)
    && (forall s :: 0 <= s < HASH_SIZE ==> hash[s] == Mark(Prior(input, since, s, ins)))
    && (forall k {:trigger SlotAt(input, k)} :: since <= k < ins <= k + RING ==> next[k % RING] == Mark(Prior(input, since, SlotAt(input, k), k)))
  }

  lemma {:induction false} PriorSame(input: seq<Byte>, more: seq<Byte>, since: nat, s: nat, k: nat)
    requires k <= since || k + 2 <= |input|
    ensures Prior(input + more, since, s, k) == Prior(input, since, s, k)
  {
    if k > since {
      SlotSame(input, more, k - 1);
      PriorSame(input, more, since, s, k - 1);
    }
  }

  lemma SlotSame(input: seq<Byte>, more: seq<Byte>, k: nat)
    requires k + 2 < |input|
    ensures SlotAt(input + more, k) == SlotAt(input, k)
  {
    hide HashThree, Slot;
    var all := input + more;
    assert all[k] == input[k] && all[k + 1] == input[k + 1] && all[k + 2] == input[k + 2];
  }

  /** More input changes no chain. */
  lemma ChainedMore(hash: seq<int>, next: seq<int>, input: seq<Byte>, more: seq<Byte>, since: nat, ins: nat)
    requires Chained(hash, next, input, since, ins)
    ensures Chained(hash, next, input + more, since, ins)
  {
    hide SlotAt, Prior, Mark;
    forall s | 0 <= s < HASH_SIZE ensures hash[s] == Mark(Prior(input + more, since, s, ins)) { PriorSame(input, more, since, s, ins); }
    forall k | since <= k < ins <= k + RING
      ensures next[k % RING] == Mark(Prior(input + more, since, SlotAt(input + more, k), k))
    {
      SlotSame(input, more, k);
      PriorSame(input, more, since, SlotAt(input, k), k);
    }
  }

  /** The next position goes to the head of its chain. */
  lemma ChainedInsert(hash: seq<int>, next: seq<int>, input: seq<Byte>, since: nat, ins: nat)
    requires Chained(hash, next, input, since, ins) && ins + 2 < |input|
    ensures var s := SlotAt(input, ins); Chained(hash[s := ins % 0x10000], next[ins % RING := hash[s]], input, since, ins + 1)
  {
    hide SlotAt, Prior, Mark;
    var t := SlotAt(input, ins);
    var hash2, next2 := hash[t := ins % 0x10000], next[ins % RING := hash[t]];
    forall s | 0 <= s < HASH_SIZE ensures hash2[s] == Mark(Prior(input, since, s, ins + 1)) { NewPrior(input, since, s, ins); }
    forall k | since <= k < ins + 1 <= k + RING
      ensures next2[k % RING] == Mark(Prior(input, since, SlotAt(input, k), k))
    {
      if k < ins {
        Elsewhere(k, ins);
        assert next[k % RING] == Mark(Prior(input, since, SlotAt(input, k), k));
      }
    }
  }

  lemma NewPrior(input: seq<Byte>, since: nat, s: nat, ins: nat)
    requires since <= ins
    ensures Prior(input, since, s, ins + 1) == if s == SlotAt(input, ins) then ins else Prior(input, since, s, ins)
    ensures Mark(ins) == ins % 0x10000
  {
    hide SlotAt;
  }

  lemma Elsewhere(k: nat, ins: nat)
    requires k < ins < k + RING
    ensures k % RING != ins % RING
  {
  }

  /** No position is in the chains. */
  lemma ChainedNone(hash: seq<int>, next: seq<int>, input: seq<Byte>, since: nat)
    requires |hash| == HASH_SIZE && |next| == RING && forall s :: 0 <= s < HASH_SIZE ==> hash[s] == 0
    ensures Chained(hash, next, input, since, since)
  {
  }

  // ---------- along a chain ----------

  /** A position with the same hash that lies before pos, not before lo, and is not cut off from pos by a position
      that looks like the end of the chain. */
  ghost predicate Reachable(input: seq<Byte>, lo: nat, pos: nat, j: nat)
  {
    lo <= j < pos && SlotAt(input, j) == SlotAt(input, pos) && !CutOff(input, pos, j)
  }

  ghost predicate CutOff(input: seq<Byte>, pos: nat, j: nat)
  {
    exists m: nat :: j <= m < pos && m % 0x10000 == 0 && SlotAt(input, m) == SlotAt(input, pos)
  }

  /** The distances ds are those of all reachable positions from c on. */
  ghost predicate Seen(input: seq<Byte>, lo: nat, pos: nat, ds: seq<nat>, c: nat)
  {
    forall j: nat :: c <= j && Reachable(input, lo, pos, j) ==> pos - j in ds
  }

  /** The walk is at position c of the chain, with all before it seen, or has seen all. */
  ghost predicate OnTrack(input: seq<Byte>, lo: nat, pos: nat, ds: seq<nat>, at: nat, c: nat)
  {
    Seen(input, lo, pos, ds, c) && (c <= lo || (c <= pos && SlotAt(input, c) == SlotAt(input, pos) && at == c % RING))
  }

  lemma TrackStart(input: seq<Byte>, lo: nat, pos: nat)
    ensures OnTrack(input, lo, pos, [], pos % RING, pos)
  {
    hide SlotAt;
  }

  /** From c, the link m leads to the next reachable position, at its true distance; or there is none left. */
  lemma TrackStep(hash: seq<int>, next: seq<int>, input: seq<Byte>, since: nat, ins: nat, lo: nat, pos: nat, ds: seq<nat>, at: nat, c: nat, m: nat) returns (c2: nat)
    requires Chained(hash, next, input, since, ins) && since <= lo <= pos < ins && pos <= lo + RING && ins <= lo + RING
    requires OnTrack(input, lo, pos, ds, at, c) && at < RING && m == next[at] < 0x10000
    ensures var d: nat := (pos - m) % 0x10000;
            && (m == 0 || d == 0 || d > pos - lo ==> Seen(input, lo, pos, ds, lo))
            && (m != 0 && d <= pos - lo ==> OnTrack(input, lo, pos, ds + [d], m % RING, c2))
  {
    hide SlotAt, Chained;
    c2 := lo;
    var d: nat := (pos - m) % 0x10000;
    if c <= lo {
      SeenMore(input, lo, pos, ds, d, lo);
    } else {
      var q := PriorOf(hash, next, input, since, ins, c);
      assert forall j: nat :: lo <= j < c && SlotAt(input, j) == SlotAt(input, pos) ==> j <= q;
      if q >= lo && m != 0 {
        TrueDistance(pos, q, m);
        c2 := q;
        assert Seen(input, lo, pos, ds + [d], q);
        TrueMark(q, m);
      } else {
        NoneLeft(input, lo, pos, ds, c, q);
        SeenMore(input, lo, pos, ds, d, lo);
      }
    }
  }

  lemma SeenMore(input: seq<Byte>, lo: nat, pos: nat, ds: seq<nat>, d: nat, c: nat)
    requires Seen(input, lo, pos, ds, c)
    ensures Seen(input, lo, pos, ds + [d], c)
  {
    hide Reachable;
  }

  lemma PriorOf(hash: seq<int>, next: seq<int>, input: seq<Byte>, since: nat, ins: nat, c: nat) returns (q: int)
    requires Chained(hash, next, input, since, ins) && since <= c < ins <= c + RING
    ensures q < c && next[c % RING] == Mark(q) && (q >= 0 ==> q >= since && SlotAt(input, q) == SlotAt(input, c))
    ensures forall j :: since <= j < c && SlotAt(input, j) == SlotAt(input, c) ==> j <= q
  {
    hide SlotAt;
    q := Prior(input, since, SlotAt(input, c), c);
  }

  lemma TrueDistance(pos: nat, q: nat, m: nat)
    requires q < pos <= q + RING && m == q % 0x10000
    ensures (pos - m) % 0x10000 == pos - q
  {
    var a := q / 0x10000;
    assert pos - m == (pos - q) + 0x10000 * a;
  }

  lemma TrueMark(q: nat, m: nat)
    requires m == q % 0x10000
    ensures m % RING == q % RING
  {
    ModPlus(m, RING, 2 * (q / 0x10000));
  }

  /** Nothing reachable lies before c if the chain ends there, or leaves the window. */
  lemma NoneLeft(input: seq<Byte>, lo: nat, pos: nat, ds: seq<nat>, c: nat, q: int)
    requires Seen(input, lo, pos, ds, c) && c <= pos && q < c
    requires forall j: nat :: lo <= j < c && SlotAt(input, j) == SlotAt(input, pos) ==> j <= q
    requires q < lo || (q % 0x10000 == 0 && SlotAt(input, q) == SlotAt(input, pos))
    ensures Seen(input, lo, pos, ds, lo)
  {
    hide SlotAt;
    forall j: nat | lo <= j && Reachable(input, lo, pos, j) ensures c <= j {
    }
  }
}
