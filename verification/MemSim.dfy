/** The simulated bus memory: answers come back through a ring of `delay` slots. */
module MemSim {
  import opened Words
  import opened Memory

  datatype Option<T> = None | Some(value: T)

  /** The arguments of one call of `apply`. */
  datatype Call = Call(cyc: bool, stb: bool, we: bool, addr: nat, data: Word, sel: Select) {
    predicate Request() {
      cyc && stb
    }
  }

  /** The memory a call leaves behind. */
  function Carried(mem: seq<Word>, c: Call): (m: seq<Word>)
    requires |mem| > 0
    ensures |m| == |mem|
  {
    if c.Request() && c.we then Store(mem, c.addr % |mem|, c.data, c.sel) else mem
  }

  /** A write as it is carried out: on 32-bit words, through the mask. */
  method Masked(held: Word, data: Word, sel: Select) returns (memv: nat)
    ensures memv == Number(Merge(held, data, sel))
  {
    var mask := GatherMask(sel);
    MergeIsMasked(held, data, sel);
    if mask == 0xffff_ffff {
      AllSelected(sel);
      memv := Number(data);
    } else {
      memv := Number(held);
      memv := And(memv, TWO32 - 1 - mask);
      memv := Or(memv, And(Number(data), mask));
    }
  }

  lemma AllSelected(sel: Select)
    requires Mask(sel) == 0xffff_ffff
    ensures sel == Select(true, true, true, true)
  {
  }

  /** What a call is owed: for a request, the word as the call leaves it. */
  function Reply(mem: seq<Word>, c: Call): Option<Word>
    requires |mem| > 0
  {
    if c.Request() then Some(Carried(mem, c)[c.addr % |mem|]) else None
  }

  /** `k` slots back from `head` in a ring of `n`. */
  function Back(head: nat, k: nat, n: nat): (i: nat)
    requires head < n && k <= n
    ensures i < n
  {
    if k <= head then head - k else head - k + n
  }

  /** The reply `k` calls ago; there was nothing before the first call. */
  function Ago(replies: seq<Option<Word>>, k: nat): Option<Word> {
    if k < |replies| then replies[|replies| - 1 - k] else None
  }

  lemma RingSizeDividesWord(x: int, k: nat)
    requires k <= 32
    ensures (x % TWO32) % Pow2(k) == x % Pow2(k)
  {
    var p, s := Pow2(k), Pow2(32 - k);
    Pow2Add(k, 32 - k);
    Pow2Words();
    var q, w := x / TWO32, x % TWO32;
    assert x == w + q * TWO32;
    Regroup(q, p, s);
    ModShift(w, q * s, p);
  }

  lemma Regroup(q: int, p: nat, s: nat)
    ensures q * (p * s) == (q * s) * p
  {
  }

  lemma ModShift(w: int, q: int, p: nat)
    requires p > 0
    ensures (w + q * p) % p == w % p
  {
    var r, d := w % p, w / p;
    var r', d' := (w + q * p) % p, (w + q * p) / p;
    assert (d + q - d') * p == d * p + q * p - d' * p == r' - r;
    SmallMultiple(d + q - d', p);
  }

  /** The unsigned index arithmetic of `apply` steps back around the ring. */
  lemma RingIndex(head: nat, delay: nat, k: nat)
    requires k <= 32 && head < Pow2(k) && delay <= Pow2(k)
    ensures (head + 1) % Pow2(k) == Back(head, Pow2(k) - 1, Pow2(k))
    ensures ((head + 1 - delay) % TWO32) % Pow2(k) == Back((head + 1) % Pow2(k), delay, Pow2(k))
  {
    var n := Pow2(k);
    RingSizeDividesWord(head + 1 - delay, k);
    SmallMod(head + 1, n);
    SmallMod(head + 1 - delay, n);
  }

  lemma SmallMod(x: int, n: int)
    requires n > 0 && -n <= x <= n
    ensures x % n == if x == n then 0 else if x >= 0 then x else x + n
  {
    if x < 0 {
      ModShift(x + n, -1, n);
    }
  }

  /** The ring holds the last replies, newest at `head`. */
  ghost predicate RingHolds(acks: seq<bool>, datas: seq<Word>, head: nat, replies: seq<Option<Word>>) {
    && |acks| == |datas| && head < |acks|
    && forall k: nat | k < |acks| :: Slot(acks, datas, Back(head, k, |acks|), Ago(replies, k))
  }

  ghost predicate Slot(acks: seq<bool>, datas: seq<Word>, i: nat, reply: Option<Word>)
    requires i < |acks| == |datas|
  {
    acks[i] == reply.Some? && (acks[i] ==> datas[i] == reply.value)
  }

  lemma RingAdvances(acks: seq<bool>, datas: seq<Word>, head: nat, replies: seq<Option<Word>>,
                     acks': seq<bool>, datas': seq<Word>, head': nat, reply: Option<Word>)
    requires RingHolds(acks, datas, head, replies)
    requires |acks'| == |datas'| == |acks|
    requires head' == Back(head, |acks| - 1, |acks|) && Slot(acks', datas', head', reply)
    requires forall i | 0 <= i < |acks| && i != head' :: acks'[i] == acks[i] && datas'[i] == datas[i]
    ensures RingHolds(acks', datas', head', replies + [reply])
  {
    var n := |acks|;
    forall k: nat | k < n
      ensures Slot(acks', datas', Back(head', k, n), Ago(replies + [reply], k))
    {
      if k > 0 {
        assert Back(head', k, n) == Back(head, k - 1, n) != head';
        assert Slot(acks, datas, Back(head, k - 1, n), Ago(replies, k - 1));
      }
    }
  }

  /** The slot `apply` reads is the one filled `Latency` calls ago, even when it is about to be reused. */
  lemma RingAnswers(acks: seq<bool>, datas: seq<Word>, head: nat, replies: seq<Option<Word>>, delay: nat, head': nat)
    requires RingHolds(acks, datas, head, replies)
    requires delay <= |acks| && (delay == 0 ==> |acks| == 1)
    requires head' == Back(head, |acks| - 1, |acks|)
    ensures Slot(acks, datas, Back(head', delay, |acks|), Ago(replies, Latency(delay) - 1))
  {
    assert Back(head', delay, |acks|) == Back(head, Latency(delay) - 1, |acks|);
  }

  class Simulator {
    const mem: array<Word>
    const delay: nat
    const fifoAck: array<bool>
    const fifoData: array<Word>
    var head: nat
    /** The ring's size, as a power of two. */
    ghost const lg: nat
    /** What every call so far is owed. */
    ghost var replies: seq<Option<Word>>

    ghost predicate Valid()
      reads this, fifoAck, fifoData
    {
      && mem.Length > 0 && mem != fifoData
      && fifoAck.Length == Pow2(lg) && lg <= 32
      && delay <= fifoAck.Length && (delay == 0 ==> fifoAck.Length == 1)
      && RingHolds(fifoAck[..], fifoData[..], head, replies)
    }

    /** The constructor: memory and ring get the least power of two that will do. */
    constructor (nwords: nat, latency: nat, first: Word)
      requires nwords <= 0x8000_0000 && latency <= 0x8000_0000
      ensures Valid() && delay == latency && replies == []
      ensures nwords <= mem.Length && (mem.Length == 1 || mem.Length < 2 * nwords)
      ensures fresh(mem) && fresh(fifoAck) && fresh(fifoData)
    {
      var nxt, e := LeastPower(nwords);
      var slots, f := LeastPower(latency);
      mem := new Word[nxt](_ => first);
      delay := latency;
      fifoAck := new bool[slots](_ => false);
      fifoData := new Word[slots](_ => first);
      head, lg, replies := 0, f, [];
    }

    /** The memory half of a call, and the slot for its answer. */
    method Serve(c: Call)
      requires mem.Length > 0 && mem != fifoData && head < fifoAck.Length == fifoData.Length
      modifies mem, fifoAck, fifoData
      ensures mem[..] == Carried(old(mem[..]), c)
      ensures Slot(fifoAck[..], fifoData[..], head, Reply(old(mem[..]), c))
      ensures !c.Request() ==> fifoData[head] == ZERO
      ensures forall i | 0 <= i < fifoAck.Length && i != head ::
                fifoAck[i] == old(fifoAck[i]) && fifoData[i] == old(fifoData[i])
    {
      fifoAck[head], fifoData[head] := false, ZERO;
      if c.cyc && c.stb {
        if c.we {
          mem[c.addr % mem.Length] := Merge(mem[c.addr % mem.Length], c.data, c.sel);
        }
        fifoAck[head] := true;
        fifoData[head] := mem[c.addr % mem.Length];
      }
    }

    /** The unsigned arithmetic on the two indices. */
    method Advance() returns (tail: nat)
      requires lg <= 32 && fifoAck.Length == Pow2(lg) && head < fifoAck.Length && delay <= fifoAck.Length
      modifies this`head
      ensures head == Back(old(head), fifoAck.Length - 1, fifoAck.Length)
      ensures tail == Back(head, delay, fifoAck.Length)
    {
      RingIndex(head, delay, lg);
      tail := ((head + 1 - delay) % TWO32) % fifoAck.Length;
      head := (head + 1) % fifoAck.Length;
    }

    /** The step around the ring, and the answer that is due. */
    method Answer() returns (ack: bool, data: Word)
      requires Valid()
      modifies this`head
      ensures head == Back(old(head), fifoAck.Length - 1, fifoAck.Length)
      ensures ack == Ago(replies, Latency(delay) - 1).Some?
      ensures ack ==> data == Ago(replies, Latency(delay) - 1).value
    {
      RingAnswers(fifoAck[..], fifoData[..], head, replies, delay, Back(head, fifoAck.Length - 1, fifoAck.Length));
      var tail := Advance();
      ack, data := fifoAck[tail], fifoData[tail];
    }

    /** `apply`; the return values are the acknowledgment and its data. */
    method Apply(c: Call) returns (ack: bool, data: Word)
      requires Valid()
      modifies this`head, this`replies, mem, fifoAck, fifoData
      ensures Valid()
      ensures mem[..] == Carried(old(mem[..]), c)
      ensures replies == old(replies) + [Reply(old(mem[..]), c)]
      ensures ack == Ago(replies, Latency(delay)).Some?
      ensures ack ==> data == Ago(replies, Latency(delay)).value
    {
      ack, data := Answer();
      ghost var acks, datas, reply := fifoAck[..], fifoData[..], Reply(mem[..], c);
      Serve(c);
      RingAdvances(acks, datas, old(head), replies, fifoAck[..], fifoData[..], head, reply);
      replies := replies + [reply];
    }
  }

  /** Calls between a request and its answer; no latency at all cannot be had. */
  function Latency(delay: nat): (d: nat)
    ensures d > 0
  {
    if delay == 0 then 1 else delay
  }

  /** `for(nxt=1; nxt < n; nxt<<=1);` */
  method LeastPower(n: nat) returns (p: nat, ghost e: nat)
    requires n <= 0x8000_0000
    ensures p == Pow2(e) && e <= 31
    ensures n <= p && (p == 1 || p < 2 * n)
  {
    p, e := 1, 0;
    while p < n
      invariant p == Pow2(e) && e <= 31
      invariant p == 1 || p < 2 * n
      decreases n - p
    {
      if e == 31 {
        Pow2Words();
      }
      p := p * 2 % TWO32;
      e := e + 1;
      Pow2Words();
      Pow2Monotone(e, 31);
    }
  }
}
