/** Whole conversations on the debug bus: vector writes and vector reads, in any order. */
module TtyLink {
  import opened Words
  import opened TtyCodec
  import opened TtyPeer
  import opened TtyAddress
  import opened TtyWrite
  import opened TtyRead
  import opened TtyPlan

  /** Everything the host keeps. The address belongs to both directions. */
  datatype Link = Link(host: Host, table: seq<nat>, rd: nat, interrupt: bool, busErr: bool) {
    predicate Valid() {
      host.Valid() && |table| == 1024 && rd < 1024
    }
  }

  function ReaderOf(l: Link): Reader {
    Reader(l.table, l.rd, l.host.known, l.host.last, l.interrupt, l.busErr)
  }

  function WithReader(l: Link, r: Reader): Link {
    Link(l.host.(known := r.known, last := r.last), r.table, r.rd, r.interrupt, r.busErr)
  }

  /** Whether an address has to be sent for `a`. */
  predicate Sends(l: Link, a: nat) {
    !(l.host.known && a == l.host.last)
  }

  /** Encoding an address also restarts the read table, unless there is nothing to send. */
  function AfterAddress(l: Link, a: nat): Link {
    if Sends(l, a) then l.(rd := 0) else l
  }

  function AfterWritev(l: Link, c: Call): (m: Link)
    requires l.Valid() && c.Valid()
    ensures m.Valid()
  {
    if c.addr % 4 != 0 then l else AfterAddress(l, c.addr).(host := AfterCall(l.host, c))
  }

  /** What `readv` sends for `len` words, if nothing goes wrong. */
  function ReadvCodes(l: Link, a: nat, len: nat, inc: bool): seq<nat>
    requires l.Valid() && Aligned(a)
  {
    if len == 0 then [] else AddressCodes(a, l.host.known, l.host.last) + StepsCodes(Plan(0, 0, len), inc)
  }

  /** What `readv` makes of the answers, before its last check. */
  function ReadvWords(l: Link, a: nat, len: nat, answers: seq<nat>): Outcomes
    requires l.Valid() && Filtered(answers)
  {
    ReadWords(ReaderOf(if len == 0 then l else AfterAddress(l, a)), answers, len)
  }

  // ----- what the peer is asked

  /** The reads that the peer does, of a vector read. */
  function Done(a: nat, len: nat, inc: bool): seq<Transfer> {
    Asked(Heard(Plan(0, 0, len), inc), a / 4, inc)
  }

  /** Where a peer stands and what it has done after the commands of a vector read. */
  function AfterRead(l: Link, p: Peer, a: nat, len: nat, inc: bool): (q: Peer)
    requires Agree(l.host, p) && Aligned(a)
    ensures q.Valid()
  {
    Onward(Told(p, a, l.host.known, l.host.last), Issued(Heard(Plan(0, 0, len), inc)), Done(a, len, inc), inc)
  }

  lemma DoneTouches(a: nat, inc: bool, len: nat)
    requires Aligned(a) && len > 0
    ensures Touched(Done(a, len, inc)) == Along(a / 4, if Falters(len, inc) then len - 8 else len, inc)
    ensures !Falters(len, inc) ==> Done(a, len, inc) == Asked(Plan(0, 0, len), a / 4, inc)
  {
    PlanIsSound(0, 0, len);
    PlanIsHeard(0, 0, len, inc);
    AskedTouches(Heard(Plan(0, 0, len), inc), a / 4, inc);
  }

  lemma ReadIsAsked(l: Link, p: Peer, a: nat, inc: bool, len: nat)
    requires l.Valid() && Agree(l.host, p) && Aligned(a) && len > 0
    ensures Run(p, ReadvCodes(l, a, len, inc)) == Some(AfterRead(l, p, a, len, inc))
    ensures Touched(Done(a, len, inc)) == Along(a / 4, if Falters(len, inc) then len - 8 else len, inc)
    ensures !Falters(len, inc) ==> Done(a, len, inc) == Asked(Plan(0, 0, len), a / 4, inc)
  {
    var plan, m := Plan(0, 0, len), Told(p, a, l.host.known, l.host.last);
    var address := AddressCodes(a, l.host.known, l.host.last);
    PlanIsInBlocks(0, 0, len);
    AddressArrives(p, a, l.host.known, l.host.last);
    StepsArrive(m, plan, inc);
    RunAppend(p, address, StepsCodes(plan, inc));
    DoneTouches(a, inc, len);
  }

  /** The addresses wanted are, in bytes, the one named and, if the read moves on, each fourth after it. */
  lemma AlongInBytes(a: nat, n: nat, inc: bool, k: nat)
    requires a % 4 == 0 && k < n
    ensures |Along(a / 4, n, inc)| == n
    ensures 4 * Along(a / 4, n, inc)[k] == (a + (if inc then 4 * k else 0)) % 0x1_0000_0000
  {
    WordsInBytes(a, if inc then k else 0);
  }

  /** The peer reads exactly the addresses wanted unless the last block is eight words without increment. */
  lemma ReadIsDone(a: nat, inc: bool, len: nat)
    requires Aligned(a) && len > 0
    ensures Touched(Done(a, len, inc)) == Along(a / 4, len, inc) <==> inc || len % READBLOCK != 8
  {
    DoneTouches(a, inc, len);
    assert |Along(a / 4, len, inc)| == len;
    if Falters(len, inc) {
      assert |Along(a / 4, len - 8, inc)| == len - 8;
    }
  }

  // ----- in step

  /**
   * Host and peer together: what the host keeps, the words in the peer's read table, whether the peer
   * has an address still to report, and whether the two read tables may differ.
   */
  datatype Scene = Scene(link: Link, seen: seq<nat>, renewed: bool, stale: bool)

  ghost predicate InStep(s: Scene, p: Peer) {
    && s.link.Valid() && Agree(s.link.host, p) && p.renewed == s.renewed && (s.renewed ==> s.seen == [])
    && (!s.stale ==> Follows(ReaderOf(s.link), s.seen))
  }

  /** The scene after a vector write. Its address restarts the host's read table, but not the peer's. */
  function AfterPut(s: Scene, c: Call): Scene
    requires s.link.Valid() && c.Valid()
  {
    Scene(AfterWritev(s.link, c), s.seen, s.renewed && Requested(c) == [],
          s.stale || (c.addr % 4 == 0 && Sends(s.link, c.addr) && s.link.rd != 0))
  }

  /** A vector write keeps addresses and write dictionaries in step, whatever becomes of the read tables. */
  lemma WriteKeepsStep(s: Scene, p: Peer, c: Call) returns (q: Peer)
    requires InStep(s, p) && c.Valid() && Harmless(s.link.host, c)
    ensures Run(p, CallCodes(s.link.host, c)) == Some(q) && q.done == p.done + Requested(c)
    ensures InStep(AfterPut(s, c), q)
  {
    q := CallCarries(s.link.host, p, c);
  }

  /** The words a peer may still refer to when its next read begins: a report of the address restarts its table. */
  function Recallable(s: Scene, a: nat): seq<nat> {
    if Sends(s.link, a) || s.renewed then [] else s.seen
  }

  /** A peer reports its address in front of the first word, if that was set since the bus was last used. */
  predicate ReportsWhenRenewed(rs: seq<Response>, renewed: bool)
    requires rs != []
  {
    Reported(rs[0].before) == renewed && forall k | 0 < k < |rs| :: !Reported(rs[k].before)
  }

  /** The answers that a peer may give to a read at `a`. */
  predicate Answered(s: Scene, a: nat, inc: bool, rs: seq<Response>) {
    && rs != [] && LegalAnswers(Recallable(s, a), rs, a / 4, inc)
    && ReportsWhenRenewed(rs, Sends(s.link, a) || s.renewed)
  }

  /** Whether the host's read table is the peer's by the time the words of a read at `a` come. */
  predicate Current(s: Scene, a: nat) {
    Sends(s.link, a) || !s.stale
  }

  /** The scene after a vector read that left the reader as `r`. */
  function AfterGet(s: Scene, a: nat, rs: seq<Response>, r: Reader): Scene {
    Scene(WithReader(s.link, r), AllSeen(Recallable(s, a), rs), false, false)
  }

  lemma BeyondIsNth(a: nat, n: nat, inc: bool)
    requires Aligned(a)
    ensures Aligned(Beyond(a, n, inc)) && Beyond(a, n, inc) / 4 == Nth(a / 4, n, inc)
  {
  }

  lemma SameBeyond(a: nat, b: nat, n: nat, inc: bool)
    requires a < TWO32 && b < TWO32
    ensures Beyond(a, n, inc) == Beyond(b, n, inc) <==> a == b
  {
  }

  /** The host's reader after a vector read at `a` that was answered. */
  function ReaderAfter(l: Link, a: nat, inc: bool, rs: seq<Response>): (r: Reader)
    requires l.Valid() && Aligned(l.host.last) && Aligned(a)
    ensures r.Valid()
  {
    AfterAnswers(ReaderOf(AfterAddress(l, a)), rs, a / 4, inc)
  }

  /** The last check of `readv` passes exactly when an address was reported, or the host had it right before. */
  lemma LastCheckPasses(l: Link, a: nat, inc: bool, rs: seq<Response>)
    requires l.Valid() && Aligned(l.host.last) && Aligned(a)
    ensures var r := ReaderAfter(l, a, inc, rs);
            && (r.last == Beyond(a, |rs|, inc) <==> AnyReport(rs) || l.host.last == a)
            && r.known == (l.host.known || AnyReport(rs))
  {
    AddressAfterAnswers(ReaderOf(AfterAddress(l, a)), rs, a / 4, inc);
    SameBeyond(l.host.last, a, |rs|, inc);
  }

  lemma WordsReturn(l: Link, a: nat, inc: bool, seen: seq<nat>, rs: seq<Response>, rest: seq<nat>)
    requires l.Valid() && Aligned(l.host.last) && Aligned(a) && rs != [] && Filtered(rest)
    requires Follows(ReaderOf(AfterAddress(l, a)), seen) && LegalAnswers(seen, rs, a / 4, inc)
    ensures Filtered(Answers(rs, a / 4, inc) + rest)
    ensures ReadvWords(l, a, |rs|, Answers(rs, a / 4, inc) + rest) == AllGot(WordsOf(rs), ReaderAfter(l, a, inc, rs), rest)
    ensures Follows(ReaderAfter(l, a, inc, rs), AllSeen(seen, rs))
  {
    AnswersRead(ReaderOf(AfterAddress(l, a)), seen, rs, a / 4, inc, rest);
  }

  lemma ReportedFirst(rs: seq<Response>, renewed: bool)
    requires rs != [] && ReportsWhenRenewed(rs, renewed)
    ensures AnyReport(rs) == renewed
  {
  }

  lemma WordsReturnAlone(l: Link, a: nat, inc: bool, seen: seq<nat>, rs: seq<Response>)
    requires l.Valid() && Aligned(l.host.last) && Aligned(a) && rs != []
    requires Follows(ReaderOf(AfterAddress(l, a)), seen) && LegalAnswers(seen, rs, a / 4, inc)
    ensures Filtered(Answers(rs, a / 4, inc))
    ensures ReadvWords(l, a, |rs|, Answers(rs, a / 4, inc)) == AllGot(WordsOf(rs), ReaderAfter(l, a, inc, rs), [])
  {
    WordsReturn(l, a, inc, seen, rs, []);
    assert Answers(rs, a / 4, inc) + [] == Answers(rs, a / 4, inc);
  }

  lemma FollowsRecallable(s: Scene, p: Peer, a: nat)
    requires InStep(s, p) && Current(s, a)
    ensures Follows(ReaderOf(AfterAddress(s.link, a)), Recallable(s, a))
  {
  }

  /**
   * A vector read whose last block is not lost, from a host whose read table is current: the peer does
   * exactly the reads wanted, its words come back, and the last check passes. Host and peer are then in step.
   */
  lemma ReadReturns(s: Scene, p: Peer, a: nat, inc: bool, rs: seq<Response>, rest: seq<nat>) returns (r: Reader, q: Peer)
    requires InStep(s, p) && Aligned(a) && Answered(s, a, inc, rs) && Filtered(rest)
    requires Current(s, a) && (inc || |rs| % READBLOCK != 8)
    ensures Filtered(Answers(rs, a / 4, inc) + rest)
    ensures ReadvWords(s.link, a, |rs|, Answers(rs, a / 4, inc) + rest) == AllGot(WordsOf(rs), r, rest)
    ensures r.last == Beyond(a, |rs|, inc)
    ensures Run(p, ReadvCodes(s.link, a, |rs|, inc)) == Some(q) && q.done == p.done + Asked(Plan(0, 0, |rs|), a / 4, inc)
    ensures InStep(AfterGet(s, a, rs, r), q)
  {
    FollowsRecallable(s, p, a);
    WordsReturn(s.link, a, inc, Recallable(s, a), rs, rest);
    r := ReaderAfter(s.link, a, inc, rs);
    ReadIsAsked(s.link, p, a, inc, |rs|);
    q := GetKeepsStep(s, p, a, inc, rs, r);
  }

  lemma WholeRead(l: Link, p: Peer, a: nat, inc: bool, len: nat) returns (q: Peer)
    requires l.Valid() && Agree(l.host, p) && Aligned(a) && len > 0 && !Falters(len, inc)
    ensures q == AfterRead(l, p, a, len, inc) && !q.renewed && q.done == p.done + Asked(Plan(0, 0, len), a / 4, inc)
    ensures q == Onward(Told(p, a, l.host.known, l.host.last), len, Asked(Plan(0, 0, len), a / 4, inc), inc)
  {
    q := AfterRead(l, p, a, len, inc);
    PlanIsHeard(0, 0, len, inc);
    PlanIsSound(0, 0, len);
    SomethingAsked(len, a / 4, inc);
  }

  lemma GetKeepsStep(s: Scene, p: Peer, a: nat, inc: bool, rs: seq<Response>, r: Reader) returns (q: Peer)
    requires InStep(s, p) && Aligned(a) && Answered(s, a, inc, rs) && (inc || |rs| % READBLOCK != 8)
    requires r == ReaderAfter(s.link, a, inc, rs) && Follows(r, AllSeen(Recallable(s, a), rs))
    ensures r.last == Beyond(a, |rs|, inc)
    ensures q == AfterRead(s.link, p, a, |rs|, inc) && q.done == p.done + Asked(Plan(0, 0, |rs|), a / 4, inc)
    ensures InStep(AfterGet(s, a, rs, r), q)
  {
    LastCheckPasses(s.link, a, inc, rs);
    ReportedFirst(rs, Sends(s.link, a) || s.renewed);
    q := WholeRead(s.link, p, a, inc, |rs|);
    ReadKeepsStep(s.link, p, a, r, |rs|, Asked(Plan(0, 0, |rs|), a / 4, inc), inc);
  }

  lemma SomethingAsked(len: nat, at: nat, inc: bool)
    requires len > 0 && at < WORDS
    ensures Asked(Plan(0, 0, len), at, inc) != []
  {
    PlanIsSound(0, 0, len);
    AskedTouches(Plan(0, 0, len), at, inc);
    assert |Along(at, len, inc)| == len;
  }

  lemma ReadKeepsStep(l: Link, p: Peer, a: nat, r: Reader, n: nat, asked: seq<Transfer>, inc: bool)
    requires Agree(l.host, p) && Aligned(a) && r.last == Beyond(a, n, inc)
    ensures Agree(l.host.(known := r.known, last := r.last), Onward(Told(p, a, l.host.known, l.host.last), n, asked, inc))
  {
    BeyondIsNth(a, n, inc);
  }

  // ----- reads that do not come back

  /** A host that wants more words than come waits. */
  lemma WordsRunOut(s: Scene, p: Peer, a: nat, inc: bool, rs: seq<Response>, len: nat)
    requires InStep(s, p) && Aligned(a) && Current(s, a) && (rs == [] || Answered(s, a, inc, rs)) && len > |rs|
    ensures Filtered(Answers(rs, a / 4, inc))
    ensures ReadvWords(s.link, a, len, Answers(rs, a / 4, inc)) == Blocked
  {
    var codes := Answers(rs, a / 4, inc);
    if rs != [] {
      FollowsRecallable(s, p, a);
      WordsReturnAlone(s.link, a, inc, Recallable(s, a), rs);
    }
    NoMoreComes(ReaderOf(AfterAddress(s.link, a)), codes, |rs|, len);
  }

  /** A read whose last block is lost: the peer answers all the others, and the host waits for eight words more. */
  lemma ReadHangs(s: Scene, p: Peer, a: nat, len: nat, rs: seq<Response>)
    requires InStep(s, p) && Aligned(a) && Current(s, a) && (rs == [] || Answered(s, a, false, rs))
    requires len % READBLOCK == 8 && |rs| == len - 8
    ensures Run(p, ReadvCodes(s.link, a, len, false)) == Some(AfterRead(s.link, p, a, len, false))
    ensures Touched(Done(a, len, false)) == Along(a / 4, |rs|, false)
    ensures Filtered(Answers(rs, a / 4, false)) && ReadvWords(s.link, a, len, Answers(rs, a / 4, false)) == Blocked
  {
    ReadIsAsked(s.link, p, a, false, len);
    WordsRunOut(s, p, a, false, rs, len);
  }

  /**
   * A read that meets a bus error, or a reset of the bus, after some of its words: the words before it
   * are counted, the error is remembered, and the read is given up there.
   */
  lemma ReadIsRefused(s: Scene, p: Peer, a: nat, inc: bool, rs: seq<Response>, before: seq<Noise>, code: nat, rest: seq<nat>, n: nat)
    requires InStep(s, p) && Aligned(a) && Current(s, a) && (rs == [] || Answered(s, a, inc, rs))
    requires (forall k | 0 <= k < |before| :: LegalNoise(before[k], Nth(a / 4, |rs|, inc))) && (code == 3 || code == 5)
    requires Filtered(rest) && n > |rs|
    ensures var codes := Answers(rs, a / 4, inc) + (AllNoiseCodes(before, Nth(a / 4, |rs|, inc)) + ([code] + rest));
            && Filtered(codes) && ReadvWords(s.link, a, n, codes).Failed?
            && ReadvWords(s.link, a, n, codes).count == |rs| && ReadvWords(s.link, a, n, codes).after.busErr
            && ReadvWords(s.link, a, n, codes).rest == rest
  {
    FollowsRecallable(s, p, a);
    ReadFails(ReaderOf(AfterAddress(s.link, a)), Recallable(s, a), rs, a / 4, inc, before, Nth(a / 4, |rs|, inc), code, rest, n);
  }

  // ----- reads that come back wrong

  /**
   * A vector write that moves the address restarts the host's table but not the peer's: afterwards the
   * host reads every legal answer right exactly when its own table looks the same from its start back
   * as it did from where it was, which it does if it was at its start.
   */
  lemma MovingWriteKeepsWords(s: Scene, p: Peer, c: Call)
    requires InStep(s, p) && !s.stale && c.Valid() && c.addr % 4 == 0 && c.words != [] && Sends(s.link, c.addr)
    requires forall k | 0 <= k < |s.seen| :: s.seen[k] < TWO32
    ensures var t := AfterPut(s, c);
            && Recallable(t, t.link.host.last) == s.seen && (s.link.rd == 0 ==> !t.stale)
            && ((forall word, how | Legal(s.seen, word, how) :: ReadsAs(ReaderOf(t.link), word, how)) <==>
                forall k | 1 <= k <= 521 && k <= |s.seen| :: Recall(s.link.table, 0, k) == Recall(s.link.table, s.link.rd, k))
  {
    var t := AfterPut(s, c);
    var r := ReaderOf(t.link);
    assert t.link.host.known && r.table == s.link.table && r.rd == 0;
    ReadsRightWhenFollowing(r, s.seen);
    if Follows(r, s.seen) {
      forall k | 1 <= k <= 521 && k <= |s.seen|
        ensures Recall(s.link.table, 0, k) == Recall(s.link.table, s.link.rd, k)
      {
        assert Recall(ReaderOf(s.link).table, s.link.rd, k) == s.seen[|s.seen| - k];
        assert Recall(r.table, r.rd, k) == s.seen[|s.seen| - k];
      }
    }
  }

  /** A host that has read `rd` ones. */
  function Onlooker(rd: nat): (l: Link)
    requires rd < 1024
    ensures l.Valid() && l.rd == rd
  {
    Link(Host(seq(256, k => 0), 0, false, true, 0), seq(1024, k => if k < rd then 1 else 0), rd, false, false)
  }

  lemma OnesRecalled(rd: nat, k: nat)
    requires rd < 1024 && 1 <= k <= rd
    ensures Recall(Onlooker(rd).table, rd, k) == 1
  {
    assert (rd + 1024 - k % 1024) % 1024 == rd - k;
  }

  /** Unless the host's table is at its start there is a word to be read wrong: so this guard is exact. */
  lemma MovingWriteMisleads(rd: nat, c: Call) returns (s: Scene, p: Peer, rs: seq<Response>)
    requires 0 < rd < 1024 && c == Call(64, false, [7])
    ensures InStep(s, p) && !s.stale && s.link.rd == rd
    ensures var t := AfterPut(s, c);
            && Answered(t, 64, false, rs) && Filtered(Answers(rs, 16, false))
            && ReadvWords(t.link, 64, |rs|, Answers(rs, 16, false)).AllGot?
            && ReadvWords(t.link, 64, |rs|, Answers(rs, 16, false)).words != WordsOf(rs)
  {
    s := Scene(Onlooker(rd), seq(rd, k => 1), false, false);
    p := Peer(seq(256, k => None), 0, Some(0), false, []);
    forall k | 1 <= k <= 521 && k <= |s.seen|
      ensures Recall(s.link.table, s.link.rd, k) == s.seen[|s.seen| - k]
    {
      OnesRecalled(rd, k);
    }
    rs := [Response([], 1, Again)];
    OneAnswer(1, Again, 16, false);
    var t := AfterPut(s, c);
    AfterOneWord(s.link.host.(last := 64), 7);
    var r := ReaderOf(t.link);
    AnswerReads(r, 1, Again, false, [], 0);
    assert Recall(r.table, r.rd, 1) == 0;
    OneWordRead(r, Answers(rs, 16, false), 0, r, []);
    assert [0][0] != WordsOf(rs)[0];
  }

  lemma AfterOneWord(h: Host, word: nat)
    requires h.Valid()
    ensures AfterWords(h, [word], false).last == h.last && AfterWords(h, [word], false).known == h.known
  {
    assert [word][..0] == [];
  }

  lemma OneAnswer(word: nat, how: How, at: nat, inc: bool)
    ensures var rs := [Response([], word, how)];
            Answers(rs, at, inc) == AnswerCodes(word, how, inc) + [] && !Reported([])
    ensures forall seen | Legal(seen, word, how) :: LegalAnswers(seen, [Response([], word, how)], at, inc)
  {
    var rs := [Response([], word, how)];
    assert rs[1..] == [] && AllNoiseCodes([], at) == [];
    assert [] + AnswerCodes(word, how, inc) == AnswerCodes(word, how, inc);
  }

  lemma FirstRead(x: nat)
    requires x < TWO32
    ensures var rs := [Response([Report(1)], x, Full)];
            && Answered(NewScene(), 64, false, rs) && WordsOf(rs) == [x] && AllSeen([], rs) == [x]
            && ReaderAfter(NewLink(), 64, false, rs) == Reader(seq(1024, k => 0)[0 := x], 1, true, 64, false, false)
  {
    var rs := [Response([Report(1)], x, Full)];
    assert rs[1..] == [] && Reported(rs[0].before) by { assert rs[0].before[0].Report?; }
    Spans();
    assert [] + [x] == [x];
    assert LegalAnswers([], rs, 16, false);
    var r := ReaderOf(AfterAddress(NewLink(), 64));
    assert AfterAnswers(r, rs, 16, false) == AfterResponse(r, rs[0], 16, false);
    assert Quiet(r, rs[0].before, 16) == Reader(seq(1024, k => 0), 0, true, 64, false, false);
  }

  lemma BlankRead(m: Reader, x: nat)
    requires m.Valid() && m.rd == 1 && m.table[1023] == 0 && x < TWO32
    ensures var codes := AnswerCodes(x, Recent(0), false);
            Filtered(codes) && ReadWords(m, codes, 1).AllGot? && ReadWords(m, codes, 1).words == [0]
  {
    var codes := AnswerCodes(x, Recent(0), false);
    AnswerReads(m, x, Recent(0), false, [], 0);
    assert codes + [] == codes;
    assert Recall(m.table, m.rd, 2) == 0;
    OneWordRead(m, codes, 0, m.(last := Stride(m.last, false)), []);
  }

  lemma SecondRead(r: Reader, x: nat, y: nat)
    requires r.Valid() && r.rd == 0 && r.table[1023] == 0 && x < TWO32 && y < TWO32
    ensures var codes := AnswerCodes(y, Full, false) + AnswerCodes(x, Recent(0), false);
            Filtered(codes) && ReadWords(r, codes, 2).AllGot? && ReadWords(r, codes, 2).words == [y, 0]
  {
    var second := AnswerCodes(x, Recent(0), false);
    var m := Enter(r, y).(last := Stride(r.last, false));
    BlankRead(m, x);
    AnswerReads(r, y, Full, false, second, 0);
    ReadWordsOn(r, AnswerCodes(y, Full, false) + second, 2, y, m, second);
  }

  lemma TwoAnswers(x: nat, y: nat)
    requires x < TWO32 && y < TWO32
    ensures var rs := [Response([], y, Full), Response([], x, Recent(0))];
            && Answers(rs, 32, false) == AnswerCodes(y, Full, false) + AnswerCodes(x, Recent(0), false)
            && LegalAnswers([x], rs, 32, false) && ReportsWhenRenewed(rs, false)
  {
    var rs := [Response([], y, Full), Response([], x, Recent(0))];
    assert rs[1..] == [Response([], x, Recent(0))] && rs[1..][1..] == [];
    OneAnswer(x, Recent(0), 32, false);
    assert AnswerCodes(x, Recent(0), false) + [] == AnswerCodes(x, Recent(0), false);
    assert [] + AnswerCodes(y, Full, false) == AnswerCodes(y, Full, false) && AllNoiseCodes([], 32) == [];
    assert [x] + [y] == [x, y] && !Reported([]);
    assert Legal([x, y], x, Recent(0));
  }

  /** What host and peer have after one word has been read from a new link. */
  function OneWordScene(x: nat): (s: Scene)
    ensures s.link.Valid()
  {
    Scene(Link(NewHost().(known := true, last := 64), seq(1024, k => 0)[0 := x], 1, false, false), [x], false, false)
  }

  lemma FirstExchange(x: nat) returns (p: Peer)
    requires x < TWO32
    ensures var first := Get(64, false, [Response([Report(1)], x, Full)]);
            && Heeded(NewScene(), first) && Fair(NewScene(), first)
            && AfterExchange(NewScene(), first) == Some(OneWordScene(x)) && InStep(OneWordScene(x), p)
  {
    var rs := [Response([Report(1)], x, Full)];
    FirstRead(x);
    var s;
    s, p := ExchangeKeepsStep(NewScene(), NewPeer(), Get(64, false, rs));
    var r := ReaderAfter(NewLink(), 64, false, rs);
    WordsReturn(NewLink(), 64, false, [], rs, []);
    assert Answers(rs, 16, false) + [] == Answers(rs, 16, false);
    assert s == AfterGet(NewScene(), 64, rs, r);
  }

  /** From power-up: a word read, a write somewhere else, and two reads on from there, of which the second is wrong. */
  lemma MovedWriteMisreads(x: nat, y: nat)
    requires 0 < x < TWO32 && y < TWO32
    ensures var t := AfterPut(OneWordScene(x), Call(128, false, [9]));
            var rs := [Response([], y, Full), Response([], x, Recent(0))];
            && t.stale && Answered(t, 128, false, rs) && Filtered(Answers(rs, 32, false))
            && ReadvWords(t.link, 128, 2, Answers(rs, 32, false)).AllGot?
            && ReadvWords(t.link, 128, 2, Answers(rs, 32, false)).words == [y, 0]
  {
    var s := OneWordScene(x);
    var t := AfterPut(s, Call(128, false, [9]));
    AfterOneWord(s.link.host.(last := 128), 9);
    SecondRead(ReaderOf(t.link), x, y);
    TwoAnswers(x, y);
  }

  // ----- conversations

  datatype Exchange = Put(call: Call) | Get(addr: nat, inc: bool, answers: seq<Response>)

  /** The scene after an exchange, when every read goes through and its last check passes. */
  function AfterExchange(s: Scene, x: Exchange): Option<Scene>
    requires s.link.Valid() && (x.Put? ==> x.call.Valid())
  {
    match x
    case Put(c) => Some(AfterPut(s, c))
    case Get(a, inc, rs) =>
      var answers := Answers(rs, a / 4, inc);
      if !Filtered(answers) then None
      else
        match ReadvWords(s.link, a, |rs|, answers)
        case AllGot(words, r, rest) =>
          if rest == [] && words == WordsOf(rs) && r.last == Beyond(a, |rs|, inc) then Some(AfterGet(s, a, rs, r)) else None
        case _ => None
  }

  function ExchangeCodes(s: Scene, x: Exchange): seq<nat>
    requires s.link.Valid() && (x.Put? ==> x.call.Valid()) && (x.Get? ==> Aligned(x.addr))
  {
    match x
    case Put(c) => CallCodes(s.link.host, c)
    case Get(a, inc, rs) => ReadvCodes(s.link, a, |rs|, inc)
  }

  /** What the peer is to do in an exchange. */
  function Wanted(x: Exchange): seq<Transfer> {
    match x
    case Put(c) => Requested(c)
    case Get(a, inc, rs) => Asked(Plan(0, 0, |rs|), a / 4, inc)
  }

  /**
   * What the host has to heed: a write has words or changes no address, a read does not end in eight
   * words from one address, and one that sends no address comes before any write that moved it.
   */
  predicate Heeded(s: Scene, x: Exchange) {
    match x
    case Put(c) => c.Valid() && Harmless(s.link.host, c)
    case Get(a, inc, rs) => Aligned(a) && Current(s, a) && (inc || |rs| % READBLOCK != 8)
  }

  /** The peer, for its part, answers legally. */
  predicate Fair(s: Scene, x: Exchange) {
    x.Get? ==> Answered(s, x.addr, x.inc, x.answers)
  }

  lemma ExchangeKeepsStep(s: Scene, p: Peer, x: Exchange) returns (t: Scene, q: Peer)
    requires InStep(s, p) && Heeded(s, x) && Fair(s, x)
    ensures AfterExchange(s, x) == Some(t)
    ensures InStep(t, q) && Brings(p, ExchangeCodes(s, x), q, Wanted(x))
  {
    match x
    case Put(c) =>
      t := AfterPut(s, c);
      q := WriteKeepsStep(s, p, c);
    case Get(a, inc, rs) =>
      var r;
      r, q := ReadReturns(s, p, a, inc, rs, []);
      assert Answers(rs, a / 4, inc) + [] == Answers(rs, a / 4, inc);
      t := AfterGet(s, a, rs, r);
  }

  /** A conversation that the host heeds and the peer answers, and the codes the host sends in it. */
  ghost predicate Conversation(s: Scene, xs: seq<Exchange>, codes: seq<nat>, t: Scene)
    decreases |xs|
  {
    if xs == [] then codes == [] && t == s
    else
      && s.link.Valid() && Heeded(s, xs[0]) && Fair(s, xs[0])
      && var sent := ExchangeCodes(s, xs[0]);
      && sent <= codes
      && (AfterExchange(s, xs[0]).Some? ==> Conversation(AfterExchange(s, xs[0]).value, xs[1..], codes[|sent|..], t))
  }

  function AllWanted(xs: seq<Exchange>): seq<Transfer>
    decreases |xs|
  {
    if xs == [] then [] else Wanted(xs[0]) + AllWanted(xs[1..])
  }

  lemma ConversationStarts(s: Scene, xs: seq<Exchange>, codes: seq<nat>, t: Scene)
    requires xs != [] && Conversation(s, xs, codes, t)
    ensures s.link.Valid() && Heeded(s, xs[0]) && Fair(s, xs[0]) && ExchangeCodes(s, xs[0]) <= codes
    ensures AfterExchange(s, xs[0]).Some? ==>
              Conversation(AfterExchange(s, xs[0]).value, xs[1..], codes[|ExchangeCodes(s, xs[0])|..], t)
  {
  }

  /** The codes make the peer do the transfers. */
  ghost predicate Brings(p: Peer, codes: seq<nat>, q: Peer, transfers: seq<Transfer>) {
    p.Valid() && Run(p, codes) == Some(q) && q.done == p.done + transfers
  }

  lemma BringsOn(p: Peer, x: seq<nat>, q: Peer, s: seq<Transfer>, y: seq<nat>, r: Peer, t: seq<Transfer>)
    requires Brings(p, x, q, s) && Brings(q, y, r, t)
    ensures Brings(p, x + y, r, s + t)
  {
    RunAppend(p, x, y);
  }

  /**
   * Through any conversation, with writes and reads in any order: every exchange goes through, every
   * read gives the words that were sent for it, the peer does exactly what was wanted, in order, and
   * host and peer end in step.
   */
  lemma {:induction false} ConversationKeepsStep(s: Scene, p: Peer, xs: seq<Exchange>, codes: seq<nat>, t: Scene) returns (q: Peer)
    requires InStep(s, p) && Conversation(s, xs, codes, t)
    ensures Brings(p, codes, q, AllWanted(xs)) && InStep(t, q)
    decreases |xs|
  {
    if xs == [] {
      q := p;
    } else {
      ConversationStarts(s, xs, codes, t);
      var sent := ExchangeCodes(s, xs[0]);
      var rest := codes[|sent|..];
      var next, mid := ExchangeKeepsStep(s, p, xs[0]);
      q := ConversationKeepsStep(next, mid, xs[1..], rest, t);
      BringsOn(p, sent, mid, Wanted(xs[0]), rest, q, AllWanted(xs[1..]));
      assert codes == sent + rest;
    }
  }

  function NewLink(): Link {
    Link(NewHost(), seq(1024, k => 0), 0, false, false)
  }

  function NewScene(): Scene {
    Scene(NewLink(), [], true, false)
  }

  lemma NewSceneInStep()
    ensures InStep(NewScene(), NewPeer())
  {
  }
}
