/** How a long read is asked for: in blocks, with a bounded number of words on their way. */
module TtyPlan {
  import opened TtyCodec
  import opened TtyPeer
  import opened TtyRead

  const READAHEAD := 512
  const READBLOCK := 512

  /** `readcmd` */
  function ReadCodes(len: nat, inc: bool): seq<nat>
    requires 0 < len
  {
    if len <= 8 then [0x20 + (len - 1) % 8 * 2 + Bump(inc)]
    else [0x30 + (len - 9) / 64 % 8 * 2 + Bump(inc)] + Digits(len - 9, 1)
  }

  /** The one length whose command is taken for the end of a burst of writes. */
  predicate Lost(len: nat, inc: bool) {
    len == 8 && !inc
  }

  lemma ShortReadDecodes(c: nat, len: nat, inc: bool)
    requires 0 < len <= 8 && c == 0x20 + (len - 1) % 8 * 2 + Bump(inc)
    ensures c < 64 && Length(c) == 1 && Decode(c, []) == if Lost(len, inc) then Command.Nothing else Fetch(len, inc)
  {
  }

  lemma LongReadDecodes(c: nat, len: nat, inc: bool, digits: seq<nat>)
    requires 8 < len <= 520 && c == 0x30 + (len - 9) / 64 % 8 * 2 + Bump(inc) && Value(digits) == (len - 9) % 64
    ensures c < 64 && Length(c) == 2 && Decode(c, digits) == Fetch(len, inc)
  {
    var high := (len - 9) / 64;
    assert high < 8 && len - 9 == 64 * high + (len - 9) % 64;
    assert c == 0x30 + 2 * high + Bump(inc) && (c - 0x30) / 2 == high && c % 2 == Bump(inc);
  }

  /** The peer is asked for exactly `len` words, unless they are eight without increment: then for none. */
  lemma ReadArrives(p: Peer, len: nat, inc: bool)
    requires p.Valid() && 0 < len <= 520
    ensures Run(p, ReadCodes(len, inc)) == if Lost(len, inc) then Some(p) else Obey(p, Fetch(len, inc))
    ensures Run(p, ReadCodes(len, inc)) == Obey(p, Fetch(len, inc)) <==> inc || len != 8
    ensures Filtered(ReadCodes(len, inc))
  {
    var c := ReadCodes(len, inc)[0];
    if len <= 8 {
      ShortReadDecodes(c, len, inc);
      RunOne(p, c, [], if Lost(len, inc) then Command.Nothing else Fetch(len, inc));
      assert [c] + [] == ReadCodes(len, inc);
    } else {
      ValueOfOne(len - 9);
      LongReadDecodes(c, len, inc, Digits(len - 9, 1));
      RunOne(p, c, Digits(len - 9, 1), Fetch(len, inc));
    }
    FetchIsFelt(p, len, inc);
  }

  lemma FetchIsFelt(p: Peer, len: nat, inc: bool)
    requires p.Valid()
    ensures Obey(p, Fetch(len, inc)) != Some(p)
  {
    if p.at.Some? {
      assert |Obey(p, Fetch(len, inc)).value.done| == |p.done| + 1;
    }
  }

  /** Eight words from one address: a single code, and the peer does nothing with it. */
  lemma EightWordsAreLost()
    ensures ReadCodes(8, false) == [ENDOFWRITE] && Decode(ENDOFWRITE, []) == Command.Nothing
  {
  }

  // ----- the plan of a read

  /** A read command for `n` words, the end of a line of commands, a word read. */
  datatype Step = Issue(n: nat) | Flush | Take

  function Size(cmd: nat, read: nat, len: nat): nat
    requires read <= cmd < len && cmd - read < READAHEAD + READBLOCK
  {
    var n := if len - cmd > READBLOCK then READBLOCK else len - cmd;
    if cmd - read + n > READAHEAD + READBLOCK then READAHEAD + READBLOCK - (cmd - read) else n
  }

  /** The commands of one line. */
  function Batch(cmd: nat, read: nat, len: nat): seq<Step>
    requires read <= cmd < len && cmd - read < READAHEAD + READBLOCK
    decreases len - cmd
  {
    var next := cmd + Size(cmd, read, len);
    [Issue(next - cmd)]
    + if next - read < READAHEAD + READBLOCK && next < len then Batch(next, read, len) else []
  }

  /** The words asked for by some steps. */
  function Issued(steps: seq<Step>): nat
    decreases |steps|
  {
    if steps == [] then 0 else (if steps[0].Issue? then steps[0].n else 0) + Issued(steps[1..])
  }

  /** Where a line of commands ends: at the end of the read, or with the window full. */
  function LineEnd(read: nat, len: nat): nat {
    if len - read > READAHEAD + READBLOCK then read + READAHEAD + READBLOCK else len
  }

  /** How far words are read once a line is sent: to within the read-ahead of its end. */
  function Until(read: nat, len: nat): nat {
    if LineEnd(read, len) - READAHEAD > read then LineEnd(read, len) - READAHEAD else read
  }

  function Takes(n: nat): seq<Step> {
    seq(n, k => Take)
  }

  /** All the steps of a read of `len` words, when `cmd` are asked for and `read` have been read. */
  function Plan(cmd: nat, read: nat, len: nat): seq<Step>
    requires read <= cmd <= len && cmd - read < READAHEAD + READBLOCK
    decreases len - cmd
  {
    if cmd == len then Takes(len - read)
    else
      var next, until := LineEnd(read, len), Until(read, len);
      Batch(cmd, read, len) + [Flush] + Takes(until - read) + Plan(next, until, len)
  }

  lemma {:induction false} IssuedAppend(x: seq<Step>, y: seq<Step>)
    ensures Issued(x + y) == Issued(x) + Issued(y)
    decreases |x|
  {
    if x == [] {
      assert x + y == y;
    } else {
      assert (x + y)[1..] == x[1..] + y;
      IssuedAppend(x[1..], y);
    }
  }

  lemma {:induction false} TakesIssueNothing(n: nat)
    ensures Issued(Takes(n)) == 0
  {
    if n > 0 {
      TakesIssueNothing(n - 1);
      assert Takes(n)[1..] == Takes(n - 1);
    }
  }

  /** A line issues what is left of the read, or of the window. */
  lemma {:induction false} BatchIssues(cmd: nat, read: nat, len: nat)
    requires read <= cmd < len && cmd - read < READAHEAD + READBLOCK
    ensures Issued(Batch(cmd, read, len)) == LineEnd(read, len) - cmd
    decreases len - cmd
  {
    var next := cmd + Size(cmd, read, len);
    if next - read < READAHEAD + READBLOCK && next < len {
      BatchIssues(next, read, len);
      assert Batch(cmd, read, len)[1..] == Batch(next, read, len);
    } else {
      assert Batch(cmd, read, len) == [Issue(next - cmd)];
    }
  }

  /** The words on their way, `ahead` to begin with, are never fewer than none nor more than 1024. */
  predicate Bounded(steps: seq<Step>, ahead: int)
    decreases |steps|
  {
    0 <= ahead <= READAHEAD + READBLOCK && (steps == [] || Bounded(steps[1..], AheadAfter(ahead, steps[0])))
  }

  function AheadAfter(ahead: int, step: Step): int {
    match step
    case Issue(n) => ahead + n
    case Flush => ahead
    case Take => ahead - 1
  }

  function Taken(steps: seq<Step>): nat
    decreases |steps|
  {
    if steps == [] then 0 else (if steps[0].Take? then 1 else 0) + Taken(steps[1..])
  }

  lemma {:induction false} BoundedAppend(x: seq<Step>, y: seq<Step>, ahead: int)
    requires Bounded(x, ahead) && Bounded(y, ahead + Issued(x) - Taken(x))
    ensures Bounded(x + y, ahead) && Taken(x + y) == Taken(x) + Taken(y)
    decreases |x|
  {
    if x == [] {
      assert x + y == y;
    } else {
      assert (x + y)[1..] == x[1..] + y;
      BoundedAppend(x[1..], y, AheadAfter(ahead, x[0]));
    }
  }

  lemma {:induction false} TakesAreBounded(n: nat, ahead: int)
    requires n <= ahead <= READAHEAD + READBLOCK
    ensures Bounded(Takes(n), ahead) && Taken(Takes(n)) == n
    decreases n
  {
    if n > 0 {
      TakesAreBounded(n - 1, ahead - 1);
      assert Takes(n)[1..] == Takes(n - 1);
    }
  }

  /** No command asks for more than a block. */
  predicate InBlocks(steps: seq<Step>) {
    forall k | 0 <= k < |steps| && steps[k].Issue? :: 1 <= steps[k].n <= READBLOCK
  }

  lemma {:induction false} BatchIsBounded(cmd: nat, read: nat, len: nat)
    requires read <= cmd < len && cmd - read < READAHEAD + READBLOCK
    ensures Bounded(Batch(cmd, read, len), cmd - read) && Taken(Batch(cmd, read, len)) == 0
    ensures InBlocks(Batch(cmd, read, len))
    decreases len - cmd
  {
    var next := cmd + Size(cmd, read, len);
    if next - read < READAHEAD + READBLOCK && next < len {
      BatchIsBounded(next, read, len);
      assert Batch(cmd, read, len)[1..] == Batch(next, read, len);
    } else {
      assert Batch(cmd, read, len) == [Issue(next - cmd)];
    }
  }

  /** What is still to do is done: every word is asked for once and read once, within the window. */
  lemma {:induction false} PlanIsSound(cmd: nat, read: nat, len: nat)
    requires read <= cmd <= len && cmd - read < READAHEAD + READBLOCK
    ensures Bounded(Plan(cmd, read, len), cmd - read)
    ensures Issued(Plan(cmd, read, len)) == len - cmd && Taken(Plan(cmd, read, len)) == len - read
    decreases len - cmd
  {
    if cmd == len {
      TakesAreBounded(len - read, cmd - read);
      TakesIssueNothing(len - read);
    } else {
      var next, until := LineEnd(read, len), Until(read, len);
      PlanIsSound(next, until, len);
      PlanGoesOn(cmd, read, len, Plan(next, until, len));
    }
  }

  /** One line of commands, the words read after it, and the rest of the plan. */
  lemma PlanGoesOn(cmd: nat, read: nat, len: nat, rest: seq<Step>)
    requires read <= cmd < len && cmd - read < READAHEAD + READBLOCK
    requires var next, until := LineEnd(read, len), Until(read, len);
             rest == Plan(next, until, len) && Bounded(rest, next - until)
             && Issued(rest) == len - next && Taken(rest) == len - until
    ensures Bounded(Plan(cmd, read, len), cmd - read)
    ensures Issued(Plan(cmd, read, len)) == len - cmd && Taken(Plan(cmd, read, len)) == len - read
  {
    var next, until := LineEnd(read, len), Until(read, len);
    BatchIssues(cmd, read, len);
    BatchIsBounded(cmd, read, len);
    TakesAreBounded(until - read, next - read);
    TakesIssueNothing(until - read);
    LineIsSound(Batch(cmd, read, len), Takes(until - read), rest, cmd - read, next - cmd, until - read);
  }

  lemma {:induction false} PlanIsInBlocks(cmd: nat, read: nat, len: nat)
    requires read <= cmd <= len && cmd - read < READAHEAD + READBLOCK
    ensures InBlocks(Plan(cmd, read, len))
    decreases len - cmd
  {
    if cmd < len {
      var next, until := LineEnd(read, len), Until(read, len);
      BatchIsBounded(cmd, read, len);
      PlanIsInBlocks(next, until, len);
    }
  }

  lemma LineIsSound(line: seq<Step>, takes: seq<Step>, rest: seq<Step>, ahead: int, issued: nat, taken: nat)
    requires Bounded(line, ahead) && Issued(line) == issued && Taken(line) == 0
    requires Bounded(takes, ahead + issued) && Issued(takes) == 0 && Taken(takes) == taken
    requires Bounded(rest, ahead + issued - taken)
    ensures var all := line + [Flush] + takes + rest;
            Bounded(all, ahead) && Issued(all) == issued + Issued(rest) && Taken(all) == taken + Taken(rest)
  {
    assert Bounded([], ahead + issued) && Issued([]) == 0;
    assert [Flush][1..] == [];
    assert Bounded([Flush], ahead + issued) && Issued([Flush]) == 0 && Taken([Flush]) == 0;
    BoundedAppend(line, [Flush], ahead);
    IssuedAppend(line, [Flush]);
    BoundedAppend(line + [Flush], takes, ahead);
    IssuedAppend(line + [Flush], takes);
    BoundedAppend(line + [Flush] + takes, rest, ahead);
    IssuedAppend(line + [Flush] + takes, rest);
  }

  // ----- what the peer hears of it

  function HeardStep(step: Step, inc: bool): seq<Step> {
    if step.Issue? && Lost(step.n, inc) then [] else [step]
  }

  /** The steps without the commands that the peer takes for something else. */
  function Heard(steps: seq<Step>, inc: bool): (h: seq<Step>)
    ensures |h| <= |steps|
    decreases |steps|
  {
    if steps == [] then []
    else HeardStep(steps[0], inc) + Heard(steps[1..], inc)
  }

  lemma {:induction false} HeardAppend(x: seq<Step>, y: seq<Step>, inc: bool)
    ensures Heard(x + y, inc) == Heard(x, inc) + Heard(y, inc)
    decreases |x|
  {
    if x == [] {
      assert x + y == y;
    } else {
      assert (x + y)[1..] == x[1..] + y;
      HeardAppend(x[1..], y, inc);
      Assoc(HeardStep(x[0], inc), Heard(x[1..], inc), Heard(y, inc));
    }
  }

  lemma {:induction false} TakesAreHeard(n: nat, inc: bool)
    ensures Heard(Takes(n), inc) == Takes(n)
  {
    if n > 0 {
      TakesAreHeard(n - 1, inc);
      assert Takes(n)[1..] == Takes(n - 1);
      assert Takes(n) == [Take] + Takes(n - 1);
    }
  }

  /** Whether the last command of a read of `len` words is lost: all the others are for whole blocks. */
  predicate Falters(len: nat, inc: bool) {
    !inc && len % READBLOCK == 8
  }

  lemma BlockSteps(cmd: nat, read: nat, len: nat)
    requires read <= cmd < len && cmd - read < READAHEAD + READBLOCK && cmd % READBLOCK == 0 && read % READBLOCK == 0
    ensures cmd == read || cmd == read + READBLOCK
    ensures Size(cmd, read, len) == if len - cmd > READBLOCK then READBLOCK else len - cmd
    ensures cmd + READBLOCK < len ==> (cmd + READBLOCK) % READBLOCK == 0
    ensures len - cmd <= READBLOCK ==> (len - cmd == 8 <==> len % READBLOCK == 8)
  {
    var i, j := cmd / READBLOCK, read / READBLOCK;
    assert i == j || i == j + 1;
  }

  lemma {:induction false} BatchIsHeard(cmd: nat, read: nat, len: nat, inc: bool)
    requires read <= cmd < len && cmd - read < READAHEAD + READBLOCK && cmd % READBLOCK == 0 && read % READBLOCK == 0
    ensures var falters := LineEnd(read, len) == len && Falters(len, inc);
            && (falters ==> Issued(Heard(Batch(cmd, read, len), inc)) == LineEnd(read, len) - cmd - 8)
            && (!falters ==> Heard(Batch(cmd, read, len), inc) == Batch(cmd, read, len))
    decreases len - cmd
  {
    var next := cmd + Size(cmd, read, len);
    BlockSteps(cmd, read, len);
    if next - read < READAHEAD + READBLOCK && next < len {
      BatchIsHeard(next, read, len, inc);
      assert Batch(cmd, read, len)[1..] == Batch(next, read, len);
      assert Heard(Batch(cmd, read, len), inc) == [Issue(next - cmd)] + Heard(Batch(next, read, len), inc);
    } else {
      assert Batch(cmd, read, len) == [Issue(next - cmd)] && [Issue(next - cmd)][1..] == [];
    }
  }

  lemma LineIsHeard(line: seq<Step>, n: nat, rest: seq<Step>, inc: bool)
    ensures Heard(line + [Flush] + Takes(n) + rest, inc) == Heard(line, inc) + [Flush] + Takes(n) + Heard(rest, inc)
    ensures Issued(Heard(line + [Flush] + Takes(n) + rest, inc)) == Issued(Heard(line, inc)) + Issued(Heard(rest, inc))
  {
    assert [Flush][1..] == [];
    assert Heard([Flush], inc) == [Flush] && Issued([Flush]) == 0;
    HeardAppend(line, [Flush], inc);
    HeardAppend(line + [Flush], Takes(n), inc);
    HeardAppend(line + [Flush] + Takes(n), rest, inc);
    TakesAreHeard(n, inc);
    TakesIssueNothing(n);
    var h := Heard(line, inc);
    IssuedAppend(h, [Flush]);
    IssuedAppend(h + [Flush], Takes(n));
    IssuedAppend(h + [Flush] + Takes(n), Heard(rest, inc));
  }

  lemma BlocksGoOn(cmd: nat, read: nat, len: nat)
    requires read <= cmd < len && cmd - read < READAHEAD + READBLOCK && cmd % READBLOCK == 0 && read % READBLOCK == 0
    ensures LineEnd(read, len) < len ==> LineEnd(read, len) % READBLOCK == 0 && Until(read, len) % READBLOCK == 0
  {
  }

  /** A read is heard as it is meant, or without its last eight words: exactly when they make a command of their own. */
  lemma {:induction false} PlanIsHeard(cmd: nat, read: nat, len: nat, inc: bool)
    requires read <= cmd <= len && cmd - read < READAHEAD + READBLOCK
    requires cmd == len || (cmd % READBLOCK == 0 && read % READBLOCK == 0)
    ensures var falters := cmd < len && Falters(len, inc);
            && (falters ==> Issued(Heard(Plan(cmd, read, len), inc)) == len - cmd - 8)
            && (!falters ==> Heard(Plan(cmd, read, len), inc) == Plan(cmd, read, len))
    decreases len - cmd
  {
    if cmd == len {
      TakesAreHeard(len - read, inc);
    } else {
      var next, until := LineEnd(read, len), Until(read, len);
      BatchIsHeard(cmd, read, len, inc);
      BatchIssues(cmd, read, len);
      BlocksGoOn(cmd, read, len);
      PlanIsHeard(next, until, len, inc);
      PlanIsSound(next, until, len);
      LineIsHeard(Batch(cmd, read, len), until - read, Plan(next, until, len), inc);
    }
  }

  // ----- what the peer makes of it

  function StepCodes(step: Step, inc: bool): seq<nat> {
    match step
    case Issue(n) => if n > 0 then ReadCodes(n, inc) else []
    case Flush => [INVALID]
    case Take => []
  }

  function StepsCodes(steps: seq<Step>, inc: bool): seq<nat>
    decreases |steps|
  {
    if steps == [] then [] else StepCodes(steps[0], inc) + StepsCodes(steps[1..], inc)
  }

  lemma {:induction false} StepsCodesAppend(x: seq<Step>, y: seq<Step>, inc: bool)
    ensures StepsCodes(x + y, inc) == StepsCodes(x, inc) + StepsCodes(y, inc)
    decreases |x|
  {
    if x == [] {
      assert x + y == y;
    } else {
      assert (x + y)[1..] == x[1..] + y;
      StepsCodesAppend(x[1..], y, inc);
    }
  }

  lemma {:induction false} TakesSendNothing(n: nat, inc: bool)
    ensures StepsCodes(Takes(n), inc) == []
  {
    if n > 0 {
      TakesSendNothing(n - 1, inc);
      assert Takes(n)[1..] == Takes(n - 1);
    }
  }

  lemma LineCodes(line: seq<Step>, n: nat, rest: seq<Step>, inc: bool)
    ensures StepsCodes(line + [Flush] + Takes(n) + rest, inc) == StepsCodes(line, inc) + [INVALID] + StepsCodes(rest, inc)
  {
    var upTo, all := line + [Flush], line + [Flush] + Takes(n);
    StepsCodesAppend(all, rest, inc);
    StepsCodesAppend(upTo, Takes(n), inc);
    StepsCodesAppend(line, [Flush], inc);
    TakesSendNothing(n, inc);
    FlushCodes(inc);
    var codes := StepsCodes(line, inc) + [INVALID];
    assert codes + [] == codes;
  }

  lemma FlushCodes(inc: bool)
    ensures StepsCodes([Flush], inc) == [INVALID]
  {
    assert [Flush][1..] == [] && [INVALID] + [] == [INVALID];
  }

  /** The codes of a plan are those of its lines, each with its newline. */
  lemma PlanCodes(cmd: nat, read: nat, len: nat, inc: bool)
    requires read <= cmd < len && cmd - read < READAHEAD + READBLOCK
    ensures StepsCodes(Plan(cmd, read, len), inc)
         == StepsCodes(Batch(cmd, read, len), inc) + [INVALID]
            + StepsCodes(Plan(LineEnd(read, len), Until(read, len), len), inc)
  {
    var next, until := LineEnd(read, len), Until(read, len);
    LineCodes(Batch(cmd, read, len), until - read, Plan(next, until, len), inc);
  }

  /** The address of the word `k` words into a read from `at` on. */
  function Nth(at: nat, k: nat, inc: bool): nat {
    Move(at, if inc then k else 0)
  }

  /** The reads the peer is to do, from the word address `at` on. */
  function Asked(steps: seq<Step>, at: nat, inc: bool): seq<Transfer>
    decreases |steps|
  {
    if steps == [] then []
    else if !steps[0].Issue? then Asked(steps[1..], at, inc)
    else [Read(at, steps[0].n, inc)] + Asked(steps[1..], Nth(at, steps[0].n, inc), inc)
  }

  lemma MoveTwice(at: nat, m: nat, n: nat)
    ensures Move(Move(at, m), n) == Move(at, m + n)
  {
  }

  /** The peer `n` words further on, with some reads to do. */
  function Onward(p: Peer, n: nat, asked: seq<Transfer>, inc: bool): Peer
    requires p.at.Some?
  {
    p.(at := Some(Nth(p.at.value, n, inc)), renewed := p.renewed && asked == [], done := p.done + asked)
  }

  lemma OnwardTwice(p: Peer, m: nat, x: seq<Transfer>, n: nat, y: seq<Transfer>, inc: bool)
    requires p.at.Some?
    ensures Onward(Onward(p, m, x, inc), n, y, inc) == Onward(p, m + n, x + y, inc)
  {
    MoveTwice(p.at.value, if inc then m else 0, if inc then n else 0);
    assert p.done + x + y == p.done + (x + y);
  }

  lemma OnwardNowhere(p: Peer, inc: bool)
    requires p.at.Some? && p.at.value < WORDS
    ensures Onward(p, 0, [], inc) == p
  {
    assert p.done + [] == p.done;
  }

  lemma RunOnward(p: Peer, x: seq<nat>, m: nat, s: seq<Transfer>, y: seq<nat>, n: nat, t: seq<Transfer>, inc: bool)
    requires p.Valid() && p.at.Some?
    requires Run(p, x) == Some(Onward(p, m, s, inc))
    requires Run(Onward(p, m, s, inc), y) == Some(Onward(Onward(p, m, s, inc), n, t, inc))
    ensures Run(p, x + y) == Some(Onward(p, m + n, s + t, inc))
  {
    RunAppend(p, x, y);
    OnwardTwice(p, m, s, n, t, inc);
  }

  /** The codes of some steps make the peer do those it hears. */
  ghost predicate Arrive(p: Peer, steps: seq<Step>, inc: bool)
    requires p.Valid() && p.at.Some?
  {
    var h := Heard(steps, inc);
    Run(p, StepsCodes(steps, inc)) == Some(Onward(p, Issued(h), Asked(h, p.at.value, inc), inc))
  }

  lemma HeardStepArrives(p: Peer, steps: seq<Step>, inc: bool, q: Peer)
    requires p.Valid() && p.at.Some? && p.at.value < WORDS && InBlocks(steps)
    requires steps != [] && steps[0].Issue? && !Lost(steps[0].n, inc)
    requires q == Onward(p, steps[0].n, [Read(p.at.value, steps[0].n, inc)], inc) && Arrive(q, steps[1..], inc)
    ensures Arrive(p, steps, inc)
  {
    var n, h, asked := steps[0].n, Heard(steps[1..], inc), [Read(p.at.value, steps[0].n, inc)];
    StepArrives(p, steps[0], inc);
    HeardFirst(steps, inc, p.at.value);
    RunOnward(p, StepCodes(steps[0], inc), n, asked, StepsCodes(steps[1..], inc), Issued(h), Asked(h, q.at.value, inc), inc);
  }

  lemma OtherStepArrives(p: Peer, steps: seq<Step>, inc: bool)
    requires p.Valid() && p.at.Some? && p.at.value < WORDS && InBlocks(steps)
    requires steps != [] && (steps[0].Issue? ==> Lost(steps[0].n, inc)) && Arrive(p, steps[1..], inc)
    ensures Arrive(p, steps, inc)
  {
    StepArrives(p, steps[0], inc);
    HeardNext(steps, inc);
    RunAppend(p, StepCodes(steps[0], inc), StepsCodes(steps[1..], inc));
  }

  /** The peer reads block after block, of those it hears. */
  lemma {:induction false} StepsArrive(p: Peer, steps: seq<Step>, inc: bool)
    requires p.Valid() && p.at.Some? && p.at.value < WORDS && InBlocks(steps)
    ensures Arrive(p, steps, inc)
    decreases |steps|
  {
    if steps == [] {
      OnwardNowhere(p, inc);
    } else if steps[0].Issue? && !Lost(steps[0].n, inc) {
      var q := Onward(p, steps[0].n, [Read(p.at.value, steps[0].n, inc)], inc);
      StepsArrive(q, steps[1..], inc);
      HeardStepArrives(p, steps, inc, q);
    } else {
      StepsArrive(p, steps[1..], inc);
      OtherStepArrives(p, steps, inc);
    }
  }

  /** What is heard of some steps, by their first one. */
  lemma HeardNext(steps: seq<Step>, inc: bool)
    requires steps != []
    ensures var h, t := Heard(steps, inc), Heard(steps[1..], inc);
            && (steps[0].Issue? && Lost(steps[0].n, inc) ==> h == t)
            && (steps[0].Issue? && !Lost(steps[0].n, inc) ==> h == [Issue(steps[0].n)] + t)
            && (!steps[0].Issue? ==> Issued(h) == Issued(t) && forall at :: Asked(h, at, inc) == Asked(t, at, inc))
  {
    var t := Heard(steps[1..], inc);
    assert ([steps[0]] + t)[1..] == t;
  }

  lemma HeardFirst(steps: seq<Step>, inc: bool, at: nat)
    requires steps != [] && steps[0].Issue? && !Lost(steps[0].n, inc)
    ensures var h, t, n := Heard(steps, inc), Heard(steps[1..], inc), steps[0].n;
            Issued(h) == n + Issued(t) && Asked(h, at, inc) == [Read(at, n, inc)] + Asked(t, Nth(at, n, inc), inc)
  {
    HeardNext(steps, inc);
    AskedNext(steps[0].n, Heard(steps[1..], inc), at, inc);
  }

  lemma AskedNext(n: nat, t: seq<Step>, at: nat, inc: bool)
    ensures Issued([Issue(n)] + t) == n + Issued(t)
    ensures Asked([Issue(n)] + t, at, inc) == [Read(at, n, inc)] + Asked(t, Nth(at, n, inc), inc)
  {
    assert ([Issue(n)] + t)[1..] == t;
  }

  lemma StepArrives(p: Peer, step: Step, inc: bool)
    requires p.Valid() && p.at.Some? && p.at.value < WORDS && (step.Issue? ==> 1 <= step.n <= READBLOCK)
    ensures step.Issue? && !Lost(step.n, inc) ==>
              Run(p, StepCodes(step, inc)) == Some(Onward(p, step.n, [Read(p.at.value, step.n, inc)], inc))
    ensures step.Issue? && Lost(step.n, inc) ==> Run(p, StepCodes(step, inc)) == Some(p)
    ensures !step.Issue? ==> Run(p, StepCodes(step, inc)) == Some(p)
  {
    match step
    case Issue(n) =>
      ReadArrives(p, n, inc);
      FetchMovesOn(p, n, inc);
    case Flush =>
      RunOne(p, INVALID, [], Command.Nothing);
      assert [INVALID] + [] == [INVALID];
    case Take =>
  }

  lemma FetchMovesOn(p: Peer, n: nat, inc: bool)
    requires p.Valid() && p.at.Some? && p.at.value < WORDS
    ensures Obey(p, Fetch(n, inc)) == Some(Onward(p, n, [Read(p.at.value, n, inc)], inc))
  {
  }

  /** The addresses some reads touch, one for each word. */
  function Touched(ts: seq<Transfer>): seq<nat>
    decreases |ts|
  {
    if ts == [] then []
    else if ts[0].Write? then Touched(ts[1..])
    else Along(ts[0].addr, ts[0].len, ts[0].inc) + Touched(ts[1..])
  }

  /** `n` addresses from `at` on, one after the other or all the same. */
  function Along(at: nat, n: nat, inc: bool): seq<nat> {
    seq(n, k requires 0 <= k < n => Nth(at, k, inc))
  }

  lemma AlongSplits(at: nat, m: nat, n: nat, inc: bool)
    ensures Along(at, m, inc) + Along(Nth(at, m, inc), n, inc) == Along(at, m + n, inc)
  {
    forall k: nat | k < n
      ensures Nth(Nth(at, m, inc), k, inc) == Nth(at, m + k, inc)
    {
      MoveTwice(at, if inc then m else 0, if inc then k else 0);
    }
    forall k | 0 <= k < m + n
      ensures (Along(at, m, inc) + Along(Nth(at, m, inc), n, inc))[k] == Along(at, m + n, inc)[k]
    {
      if k >= m {
        assert Nth(Nth(at, m, inc), k - m, inc) == Nth(at, k, inc);
      }
    }
  }

  lemma {:induction false} AskedTouches(steps: seq<Step>, at: nat, inc: bool)
    requires at < WORDS
    ensures Touched(Asked(steps, at, inc)) == Along(at, Issued(steps), inc)
    decreases |steps|
  {
    if steps != [] {
      if steps[0].Issue? {
        var n := steps[0].n;
        var next := Nth(at, n, inc);
        AskedTouches(steps[1..], next, inc);
        AlongSplits(at, n, Issued(steps[1..]), inc);
        assert Asked(steps, at, inc)[1..] == Asked(steps[1..], next, inc);
      } else {
        AskedTouches(steps[1..], at, inc);
      }
    }
  }
}
