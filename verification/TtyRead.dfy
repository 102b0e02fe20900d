/** Vector reads: the answers a peer may give, and the host's reading of them. */
module TtyRead {
  import opened Words
  import opened TtyCodec
  import opened TtyPeer

  /** What the host keeps for reading. */
  datatype Reader = Reader(table: seq<nat>, rd: nat, known: bool, last: nat, interrupt: bool, busErr: bool) {
    predicate Valid() {
      |table| == 1024 && rd < 1024 && last < TWO32
    }
  }

  datatype Outcome =
    | Got(word: nat, after: Reader, rest: seq<nat>)
    | BusError(after: Reader, rest: seq<nat>)
    | Waiting

  function Stride(last: nat, inc: bool): nat {
    if inc then (last + 4) % TWO32 else last
  }

  /** The word entered `back` words ago. */
  function Recall(table: seq<nat>, rd: nat, back: nat): nat
    requires |table| == 1024
  {
    table[(rd + 1024 - back % 1024) % 1024]
  }

  /** How many codes the answer that starts with `c` takes. */
  function AnswerLength(c: nat): (n: nat)
    ensures n > 0
  {
    if 8 <= c < 12 then 6
    else if 12 <= c < 16 then c - 10
    else if 0x10 <= c < 0x20 then 2
    else if 0x38 <= c < 0x40 then 6
    else 1
  }

  /** What the codes of an answer say. */
  datatype Token =
    | Chatter
    | Interrupted
    | Fault
    | Located(addr: nat)
    | Recalled(back: nat, inc: bool)
    | Fresh(word: nat, inc: bool)
    | Unknown

  function Parse(c: nat, digits: seq<nat>): Token {
    var v := Value(digits);
    var inc := c % 2 == 1;
    if c == 3 || c == 5 then Fault
    else if c == 4 then Interrupted
    else if c < 6 || c >= 64 then Chatter
    else if c < 8 then Recalled(1, inc)
    else if c < 12 then Located(c % 4 * WORDS + v)
    else if c < 16 then Located(v)
    else if c < 0x20 then Recalled(c / 2 % 8 * 64 + v + 10, inc)
    else if c < 0x30 then Recalled(c / 2 % 8 + 2, inc)
    else if c < 0x38 then Unknown
    else Fresh(c / 2 % 4 * WORDS + v, inc)
  }

  /** A word sent in full is entered in the table. */
  function Enter(r: Reader, word: nat): (s: Reader)
    requires r.Valid()
    ensures s.Valid()
  {
    r.(table := r.table[r.rd := word], rd := (r.rd + 1) % 1024)
  }

  function Relocated(r: Reader, addr: nat): (s: Reader)
    requires r.Valid()
    ensures s.Valid()
  {
    r.(known := true, last := addr * 4 % TWO32)
  }

  /** Only six-bit codes get this far: everything else has been filtered out. */
  predicate Filtered(codes: seq<nat>) {
    forall k | 0 <= k < |codes| :: codes[k] < 64
  }

  /**
   * `readword`: noise is taken in until a word starts, or the bus fails. An unknown code gives
   * `val`, which is left over from the last address report.
   */
  function ReadWord(r: Reader, codes: seq<nat>, val: nat): (o: Outcome)
    requires r.Valid() && Filtered(codes)
    ensures o.Got? || o.BusError? ==> o.after.Valid() && Filtered(o.rest)
    decreases |codes|
  {
    if codes == [] || |codes| < AnswerLength(codes[0]) then Waiting
    else
      var n := AnswerLength(codes[0]);
      var rest := codes[n..];
      match Parse(codes[0], codes[1..n])
      case Chatter => ReadWord(r, rest, val)
      case Interrupted => ReadWord(r.(interrupt := true), rest, val)
      case Located(a) => ReadWord(Relocated(r, a), rest, a)
      case Fault => BusError(r.(busErr := true), rest)
      case Recalled(k, inc) => Got(Recall(r.table, r.rd, k), r.(last := Stride(r.last, inc)), rest)
      case Fresh(word, inc) => Got(word, Enter(r, word).(last := Stride(r.last, inc)), rest)
      case Unknown => Got(val, r, rest)
  }

  // ----- what a peer may say

  /** The ways to send a word: in full, or as one of the last 521 words sent in full. */
  datatype How = Full | Again | Recent(beyond: nat) | Distant(beyond: nat)

  /** What may come before a word: codes that carry no word, and reports of the peer's address. */
  datatype Noise = Idle | Busy | Ack | Interrupt | Report(digits: nat)

  datatype Response = Response(before: seq<Noise>, word: nat, how: How)

  function BackOf(how: How): nat {
    match how
    case Full => 0
    case Again => 1
    case Recent(k) => k + 2
    case Distant(k) => k + 10
  }

  /** The codes reach back 521 words. */
  predicate Reachable(how: How) {
    && (how.Recent? ==> how.beyond < 8)
    && (how.Distant? ==> how.beyond < 512)
  }

  /** The peer may name any word it has sent in full since it last reported its address. */
  predicate Legal(seen: seq<nat>, word: nat, how: How) {
    && word < TWO32 && Reachable(how)
    && (!how.Full? ==> BackOf(how) <= |seen| && seen[|seen| - BackOf(how)] == word)
  }

  function Bump(inc: bool): nat {
    if inc then 1 else 0
  }

  function AnswerCodes(word: nat, how: How, inc: bool): seq<nat>
  {
    match how
    case Full => [0x38 + word / WORDS * 2 + Bump(inc)] + Digits(word, 5)
    case Again => [6 + Bump(inc)]
    case Recent(k) => [0x20 + k * 2 + Bump(inc)]
    case Distant(k) => [0x10 + k / 64 * 2 + Bump(inc)] + Digits(k, 1)
  }

  /** A report uses enough digits for the address; the full form always does. */
  predicate LegalNoise(noise: Noise, at: nat) {
    noise.Report? ==> noise.digits == 5 || (1 <= noise.digits <= 4 && at < Span(noise.digits))
  }

  function NoiseCodes(noise: Noise, at: nat): seq<nat> {
    match noise
    case Idle => [0]
    case Busy => [1]
    case Ack => [2]
    case Interrupt => [4]
    case Report(n) => if n == 5 then [8] + Digits(at, 5) else [11 + n] + Digits(at, n)
  }

  function AllNoiseCodes(before: seq<Noise>, at: nat): seq<nat>
    decreases |before|
  {
    if before == [] then [] else NoiseCodes(before[0], at) + AllNoiseCodes(before[1..], at)
  }

  /** The answers to a read of `|rs|` words from the word address `at` on. */
  function Answers(rs: seq<Response>, at: nat, inc: bool): seq<nat>
    decreases |rs|
  {
    if rs == [] then []
    else
      AllNoiseCodes(rs[0].before, at) + AnswerCodes(rs[0].word, rs[0].how, inc)
      + Answers(rs[1..], Advance(at, inc), inc)
  }

  /** The words sent in full, after an answer. */
  function Seen(seen: seq<nat>, r: Response): seq<nat> {
    if r.how.Full? then seen + [r.word] else seen
  }

  predicate LegalAnswers(seen: seq<nat>, rs: seq<Response>, at: nat, inc: bool)
    decreases |rs|
  {
    rs == []
    || (&& Legal(seen, rs[0].word, rs[0].how)
        && (forall k | 0 <= k < |rs[0].before| :: LegalNoise(rs[0].before[k], at))
        && LegalAnswers(Seen(seen, rs[0]), rs[1..], Advance(at, inc), inc))
  }

  // ----- the host recovers the words

  /** The host's table holds the last words sent in full, as far back as any code can name. */
  ghost predicate Follows(r: Reader, seen: seq<nat>) {
    && r.Valid()
    && forall k | 1 <= k <= 521 && k <= |seen| :: Recall(r.table, r.rd, k) == seen[|seen| - k]
  }

  function Reported(before: seq<Noise>): bool {
    exists k :: 0 <= k < |before| && before[k].Report?
  }

  /** The reader after noise, which touches only the address and the interrupt flag. */
  function Quiet(r: Reader, before: seq<Noise>, at: nat): (s: Reader)
    requires r.Valid() && at < WORDS
    ensures s.Valid()
  {
    r.(known := r.known || Reported(before), last := if Reported(before) then at * 4 else r.last,
       interrupt := r.interrupt || Interrupt in before)
  }

  /** What `readword` does with the codes at its front, by what they say. */
  ghost predicate Reads(r: Reader, codes: seq<nat>, t: Token, rest: seq<nat>, val: nat)
    requires r.Valid() && Filtered(codes) && Filtered(rest)
  {
    var o := ReadWord(r, codes, val);
    match t
    case Chatter => o == ReadWord(r, rest, val)
    case Interrupted => o == ReadWord(r.(interrupt := true), rest, val)
    case Located(a) => o == ReadWord(Relocated(r, a), rest, a)
    case Fault => o == BusError(r.(busErr := true), rest)
    case Recalled(k, inc) => o == Got(Recall(r.table, r.rd, k), r.(last := Stride(r.last, inc)), rest)
    case Fresh(word, inc) => o == Got(word, Enter(r, word).(last := Stride(r.last, inc)), rest)
    case Unknown => o == Got(val, r, rest)
  }

  lemma FrontReads(r: Reader, c: nat, digits: seq<nat>, t: Token, rest: seq<nat>, val: nat)
    requires r.Valid() && Filtered([c] + digits) && Filtered(rest)
    requires 1 + |digits| == AnswerLength(c) && Parse(c, digits) == t
    ensures Filtered([c] + digits + rest)
    ensures Reads(r, [c] + digits + rest, t, rest, val)
  {
    var codes := [c] + digits + rest;
    var n := AnswerLength(c);
    assert Filtered(codes);
    assert codes[0] == c && codes[1..n] == digits && codes[n..] == rest;
  }

  /** What a piece of noise says. */
  function NoiseToken(noise: Noise, at: nat): Token {
    match noise
    case Interrupt => Interrupted
    case Report(_) => Located(at)
    case _ => Chatter
  }

  lemma ReportParses(n: nat, at: nat) returns (c: nat)
    requires at < WORDS && (n == 5 || (1 <= n <= 4 && at < Span(n)))
    ensures c < 64 && AnswerLength(c) == n + 1 && Parse(c, Digits(at, n)) == Located(at)
    ensures NoiseCodes(Report(n), at) == [c] + Digits(at, n)
  {
    if n == 5 {
      c := 8;
      ValueOfFive(at);
    } else {
      c := 11 + n;
      SmallValue(at, n);
    }
  }

  /** One piece of noise, taken in. */
  lemma NoiseReads(r: Reader, noise: Noise, at: nat, rest: seq<nat>, val: nat)
    requires r.Valid() && at < WORDS && LegalNoise(noise, at) && Filtered(rest)
    ensures Filtered(NoiseCodes(noise, at) + rest)
    ensures Reads(r, NoiseCodes(noise, at) + rest, NoiseToken(noise, at), rest, val)
  {
    if noise.Report? {
      var c := ReportParses(noise.digits, at);
      FrontReads(r, c, Digits(at, noise.digits), Located(at), rest, val);
    } else {
      var c := NoiseCodes(noise, at)[0];
      assert [c] + [] == NoiseCodes(noise, at);
      FrontReads(r, c, [], NoiseToken(noise, at), rest, val);
    }
  }

  function Hear(r: Reader, noise: Noise, at: nat): (s: Reader)
    requires r.Valid()
    ensures s.Valid()
  {
    if noise == Interrupt then r.(interrupt := true) else if noise.Report? then Relocated(r, at) else r
  }

  function HearAll(r: Reader, before: seq<Noise>, at: nat): (s: Reader)
    requires r.Valid()
    ensures s.Valid()
    decreases |before|
  {
    if before == [] then r else HearAll(Hear(r, before[0], at), before[1..], at)
  }

  lemma {:induction false} HearingIsQuiet(r: Reader, before: seq<Noise>, at: nat)
    requires r.Valid() && at < WORDS
    ensures HearAll(r, before, at) == Quiet(r, before, at)
    decreases |before|
  {
    if before != [] {
      HearingIsQuiet(Hear(r, before[0], at), before[1..], at);
      ReportFirst(before);
      assert Interrupt in before <==> before[0] == Interrupt || Interrupt in before[1..];
    }
  }

  lemma ReportFirst(before: seq<Noise>)
    requires before != []
    ensures Reported(before) <==> before[0].Report? || Reported(before[1..])
  {
    if Reported(before) {
      var k :| 0 <= k < |before| && before[k].Report?;
      if k > 0 {
        assert before[1..][k - 1].Report?;
      }
    }
    if Reported(before[1..]) {
      var k :| 0 <= k < |before[1..]| && before[1..][k].Report?;
      assert before[k + 1].Report?;
    }
  }

  lemma NoiseHeard(r: Reader, noise: Noise, at: nat, rest: seq<nat>, val: nat)
    requires r.Valid() && at < WORDS && LegalNoise(noise, at) && Filtered(rest)
    ensures Filtered(NoiseCodes(noise, at) + rest)
    ensures ReadWord(r, NoiseCodes(noise, at) + rest, val)
         == ReadWord(Hear(r, noise, at), rest, if noise.Report? then at else val)
  {
    NoiseReads(r, noise, at, rest, val);
  }

  lemma AllNoiseSplits(before: seq<Noise>, at: nat, rest: seq<nat>)
    requires before != []
    ensures AllNoiseCodes(before, at) + rest == NoiseCodes(before[0], at) + (AllNoiseCodes(before[1..], at) + rest)
  {
  }

  lemma {:induction false} AllNoiseReads(r: Reader, before: seq<Noise>, at: nat, rest: seq<nat>, val: nat) returns (left: nat)
    requires r.Valid() && at < WORDS && Filtered(rest)
    requires forall k | 0 <= k < |before| :: LegalNoise(before[k], at)
    ensures Filtered(AllNoiseCodes(before, at) + rest)
    ensures ReadWord(r, AllNoiseCodes(before, at) + rest, val) == ReadWord(HearAll(r, before, at), rest, left)
    decreases |before|
  {
    if before == [] {
      left := val;
      assert AllNoiseCodes(before, at) + rest == rest;
    } else {
      var first := before[0];
      var tail := AllNoiseCodes(before[1..], at) + rest;
      left := AllNoiseReads(Hear(r, first, at), before[1..], at, rest, if first.Report? then at else val);
      AllNoiseSplits(before, at, rest);
      NoiseHeard(r, first, at, tail, val);
    }
  }

  /** What an answer says. */
  function AnswerToken(word: nat, how: How, inc: bool): Token {
    if how.Full? then Fresh(word, inc) else Recalled(BackOf(how), inc)
  }

  /** The first code of an answer says how it was sent, how far back, and whether to move on. */
  lemma FullParses(c: nat, word: nat, inc: bool, digits: seq<nat>)
    requires word < TWO32 && c == 0x38 + word / WORDS * 2 + Bump(inc) && Value(digits) == word % WORDS
    ensures c < 64 && AnswerLength(c) == 6 && Parse(c, digits) == Fresh(word, inc)
  {
  }

  lemma DistantParses(c: nat, k: nat, inc: bool, digits: seq<nat>)
    requires k < 512 && c == 0x10 + k / 64 * 2 + Bump(inc) && Value(digits) == k % 64
    ensures c < 64 && AnswerLength(c) == 2 && Parse(c, digits) == Recalled(k + 10, inc)
  {
  }

  lemma RecentParses(c: nat, k: nat, inc: bool)
    requires k < 8 && c == 0x20 + k * 2 + Bump(inc)
    ensures c < 64 && AnswerLength(c) == 1 && Parse(c, []) == Recalled(k + 2, inc)
  {
  }

  lemma AnswerParses(word: nat, how: How, inc: bool, c: nat, digits: seq<nat>)
    requires word < TWO32 && Reachable(how)
    requires AnswerCodes(word, how, inc)[0] == c && AnswerCodes(word, how, inc)[1..] == digits
    ensures c < 64 && AnswerLength(c) == 1 + |digits| && Parse(c, digits) == AnswerToken(word, how, inc)
  {
    match how
    case Full =>
      ValueOfFive(word);
      assert digits == Digits(word, 5);
      FullParses(c, word, inc, digits);
    case Again =>
    case Recent(k) =>
      RecentParses(c, k, inc);
    case Distant(k) =>
      ValueOfOne(k);
      assert digits == Digits(k, 1);
      DistantParses(c, k, inc, digits);
  }

  lemma AnswerReads(r: Reader, word: nat, how: How, inc: bool, rest: seq<nat>, val: nat)
    requires r.Valid() && Filtered(rest) && word < TWO32 && Reachable(how)
    ensures Filtered(AnswerCodes(word, how, inc) + rest)
    ensures Reads(r, AnswerCodes(word, how, inc) + rest, AnswerToken(word, how, inc), rest, val)
  {
    var codes := AnswerCodes(word, how, inc);
    var c, digits := codes[0], codes[1..];
    assert codes == [c] + digits;
    AnswerParses(word, how, inc, c, digits);
    AnswerIsCodes(word, how, inc);
    FrontReads(r, c, digits, AnswerToken(word, how, inc), rest, val);
  }

  /** A legal answer is read as the word it was sent for. */
  lemma WordReads(r: Reader, seen: seq<nat>, word: nat, how: How, inc: bool, rest: seq<nat>, val: nat)
    requires Follows(r, seen) && Legal(seen, word, how) && Filtered(rest)
    ensures Filtered(AnswerCodes(word, how, inc) + rest)
    ensures var s := if how.Full? then Enter(r, word) else r;
            ReadWord(r, AnswerCodes(word, how, inc) + rest, val) == Got(word, s.(last := Stride(r.last, inc)), rest)
  {
    AnswerReads(r, word, how, inc, rest, val);
    if !how.Full? {
      assert Recall(r.table, r.rd, BackOf(how)) == seen[|seen| - BackOf(how)];
    }
  }

  /** The host gives back the word when it is sent in this way. */
  predicate ReadsAs(r: Reader, word: nat, how: How)
    requires r.Valid() && word < TWO32 && Reachable(how)
  {
    var codes := AnswerCodes(word, how, false);
    Filtered(codes) && ReadWord(r, codes, 0).Got? && ReadWord(r, codes, 0).word == word
  }

  /** The code for a word sent `k` words ago. */
  function HowFar(k: nat): (how: How)
    requires 1 <= k <= 521
    ensures Reachable(how) && BackOf(how) == k && !how.Full?
  {
    if k == 1 then Again else if k < 10 then Recent(k - 2) else Distant(k - 10)
  }

  lemma ReadsRecalled(r: Reader, word: nat, how: How)
    requires r.Valid() && word < TWO32 && Reachable(how)
    ensures ReadsAs(r, word, how) <==> how.Full? || Recall(r.table, r.rd, BackOf(how)) == word
  {
    AnswerReads(r, word, how, false, [], 0);
    assert AnswerCodes(word, how, false) + [] == AnswerCodes(word, how, false);
  }

  /** Nothing less will do: the host reads every legal answer right exactly when its table follows the peer's. */
  lemma ReadsRightWhenFollowing(r: Reader, seen: seq<nat>)
    requires r.Valid() && forall k | 0 <= k < |seen| :: seen[k] < TWO32
    ensures (forall word, how | Legal(seen, word, how) :: ReadsAs(r, word, how)) <==> Follows(r, seen)
  {
    if Follows(r, seen) {
      forall word, how | Legal(seen, word, how)
        ensures ReadsAs(r, word, how)
      {
        ReadsRecalled(r, word, how);
      }
    }
    if forall word, how | Legal(seen, word, how) :: ReadsAs(r, word, how) {
      forall k | 1 <= k <= 521 && k <= |seen|
        ensures Recall(r.table, r.rd, k) == seen[|seen| - k]
      {
        var word := seen[|seen| - k];
        assert Legal(seen, word, HowFar(k));
        ReadsRecalled(r, word, HowFar(k));
      }
    }
  }

  /** A word sent in full goes into the table of whoever follows. */
  lemma FollowsOn(r: Reader, seen: seq<nat>, word: nat)
    requires Follows(r, seen)
    ensures Follows(Enter(r, word), seen + [word])
  {
    var s := Enter(r, word);
    forall k | 1 <= k <= 521 && k <= |seen| + 1
      ensures Recall(s.table, s.rd, k) == (seen + [word])[|seen| + 1 - k]
    {
      NextSlot(r.rd, k);
      if k > 1 {
        assert Recall(r.table, r.rd, k - 1) == seen[|seen| - (k - 1)];
      }
    }
  }

  lemma NextSlot(rd: nat, k: nat)
    requires rd < 1024 && 1 <= k <= 521
    ensures ((rd + 1) % 1024 + 1024 - k % 1024) % 1024 == (rd + 1024 - (k - 1) % 1024) % 1024
    ensures (rd + 1024 - (k - 1) % 1024) % 1024 == rd <==> k == 1
  {
  }

  // ----- reads that fail

  /** A reset of the bus or a bus error, after any noise: the host gives up on the word, and remembers the error. */
  lemma FaultReads(r: Reader, before: seq<Noise>, at: nat, code: nat, rest: seq<nat>)
    requires r.Valid() && at < WORDS && Filtered(rest) && (code == 3 || code == 5)
    requires forall k | 0 <= k < |before| :: LegalNoise(before[k], at)
    ensures Filtered(AllNoiseCodes(before, at) + ([code] + rest))
    ensures ReadWord(r, AllNoiseCodes(before, at) + ([code] + rest), 0) == BusError(Quiet(r, before, at).(busErr := true), rest)
  {
    var q := HearAll(r, before, at);
    HearingIsQuiet(r, before, at);
    FaultFirst(q, code, rest, 0);
    var left := AllNoiseReads(r, before, at, [code] + rest, 0);
    FaultFirst(q, code, rest, left);
  }

  lemma FaultFirst(r: Reader, code: nat, rest: seq<nat>, val: nat)
    requires r.Valid() && Filtered(rest) && (code == 3 || code == 5)
    ensures Filtered([code] + rest) && ReadWord(r, [code] + rest, val) == BusError(r.(busErr := true), rest)
  {
    assert [code] + [] + rest == [code] + rest;
    FrontReads(r, code, [], Fault, rest, val);
  }

  // ----- a whole read

  datatype Outcomes =
    | AllGot(words: seq<nat>, after: Reader, rest: seq<nat>)
    | Failed(count: nat, after: Reader, rest: seq<nat>)
    | Blocked

  /** `n` words read one after the other. */
  function ReadWords(r: Reader, codes: seq<nat>, n: nat): (o: Outcomes)
    requires r.Valid() && Filtered(codes)
    ensures o.AllGot? ==> o.after.Valid() && Filtered(o.rest) && |o.words| == n
    ensures o.Failed? ==> o.after.Valid() && Filtered(o.rest) && o.count < n
    decreases n
  {
    if n == 0 then AllGot([], r, codes)
    else
      match ReadWord(r, codes, 0)
      case Waiting => Blocked
      case BusError(s, rest) => Failed(0, s, rest)
      case Got(word, s, rest) => Following([word], ReadWords(s, rest, n - 1))
  }

  /** What a read gives when some words came before. */
  function Following(words: seq<nat>, o: Outcomes): Outcomes {
    match o
    case AllGot(more, s, rest) => AllGot(words + more, s, rest)
    case Failed(k, s, rest) => Failed(|words| + k, s, rest)
    case Blocked => Blocked
  }

  lemma FollowingNothing(o: Outcomes)
    ensures Following([], o) == o
  {
    if o.AllGot? {
      assert [] + o.words == o.words;
    }
  }

  lemma FollowingBoth(x: seq<nat>, y: seq<nat>, o: Outcomes)
    ensures Following(x, Following(y, o)) == Following(x + y, o)
  {
    if o.AllGot? {
      assert x + (y + o.words) == x + y + o.words;
    }
  }

  lemma {:induction false} ReadWordsSplit(r: Reader, codes: seq<nat>, m: nat, n: nat)
    requires r.Valid() && Filtered(codes)
    ensures ReadWords(r, codes, m + n)
         == match ReadWords(r, codes, m)
            case AllGot(words, s, rest) => Following(words, ReadWords(s, rest, n))
            case o => o
    decreases m
  {
    if m == 0 {
      FollowingNothing(ReadWords(r, codes, n));
    } else {
      var o := ReadWord(r, codes, 0);
      if o.Got? {
        ReadWordsSplit(o.after, o.rest, m - 1, n);
        var first := ReadWords(o.after, o.rest, m - 1);
        if first.AllGot? {
          FollowingBoth([o.word], first.words, ReadWords(first.after, first.rest, n));
        }
      }
    }
  }

  lemma OneWordRead(r: Reader, codes: seq<nat>, word: nat, s: Reader, rest: seq<nat>)
    requires r.Valid() && Filtered(codes) && ReadWord(r, codes, 0) == Got(word, s, rest)
    ensures ReadWords(r, codes, 1) == AllGot([word], s, rest)
  {
    assert [word] + [] == [word];
  }

  /** When all that comes has been read, a read of more waits. */
  lemma NoMoreComes(r: Reader, codes: seq<nat>, m: nat, n: nat)
    requires r.Valid() && Filtered(codes) && n > m
    requires ReadWords(r, codes, m).AllGot? && ReadWords(r, codes, m).rest == []
    ensures ReadWords(r, codes, n) == Blocked
  {
    ReadWordsSplit(r, codes, m, n - m);
    var s := ReadWords(r, codes, m).after;
    assert ReadWords(s, [], n - m) == Blocked;
  }

  function WordsOf(rs: seq<Response>): seq<nat> {
    seq(|rs|, k requires 0 <= k < |rs| => rs[k].word)
  }

  function AllSeen(seen: seq<nat>, rs: seq<Response>): seq<nat>
    decreases |rs|
  {
    if rs == [] then seen else AllSeen(Seen(seen, rs[0]), rs[1..])
  }

  predicate AnyReport(rs: seq<Response>) {
    exists k :: 0 <= k < |rs| && Reported(rs[k].before)
  }

  /** The reader after one answer, with what came before it. */
  function AfterResponse(r: Reader, x: Response, at: nat, inc: bool): (s: Reader)
    requires r.Valid() && at < WORDS
    ensures s.Valid()
  {
    var q := Quiet(r, x.before, at);
    (if x.how.Full? then Enter(q, x.word) else q).(last := Stride(q.last, inc))
  }

  /** What comes before a word leaves the reader as it does, with the word to come. */
  lemma QuietReads(r: Reader, before: seq<Noise>, at: nat, tail: seq<nat>) returns (left: nat)
    requires r.Valid() && at < WORDS && Filtered(tail)
    requires forall k | 0 <= k < |before| :: LegalNoise(before[k], at)
    ensures Filtered(AllNoiseCodes(before, at) + tail)
    ensures ReadWord(r, AllNoiseCodes(before, at) + tail, 0) == ReadWord(Quiet(r, before, at), tail, left)
  {
    left := AllNoiseReads(r, before, at, tail, 0);
    HearingIsQuiet(r, before, at);
  }

  lemma ResponseFollows(r: Reader, seen: seq<nat>, x: Response, at: nat, inc: bool)
    requires Follows(r, seen) && at < WORDS && x.word < TWO32
    ensures Follows(AfterResponse(r, x, at, inc), Seen(seen, x))
  {
    var q := Quiet(r, x.before, at);
    assert Follows(q, seen);
    FollowsOn(q, seen, x.word);
  }

  lemma Assoc<T>(x: seq<T>, y: seq<T>, z: seq<T>)
    ensures x + (y + z) == x + y + z
  {
  }

  /** One answer is read as its word, and the reader follows the peer on. */
  lemma ResponseReads(r: Reader, seen: seq<nat>, x: Response, at: nat, inc: bool, rest: seq<nat>)
    requires Follows(r, seen) && at < WORDS && Filtered(rest) && Legal(seen, x.word, x.how)
    requires forall k | 0 <= k < |x.before| :: LegalNoise(x.before[k], at)
    ensures var codes := AllNoiseCodes(x.before, at) + AnswerCodes(x.word, x.how, inc) + rest;
            Filtered(codes) && ReadWord(r, codes, 0) == Got(x.word, AfterResponse(r, x, at, inc), rest)
    ensures Follows(AfterResponse(r, x, at, inc), Seen(seen, x))
  {
    var q := Quiet(r, x.before, at);
    var tail := AnswerCodes(x.word, x.how, inc) + rest;
    AnswerIsCodes(x.word, x.how, inc);
    var left := QuietReads(r, x.before, at, tail);
    Assoc(AllNoiseCodes(x.before, at), AnswerCodes(x.word, x.how, inc), rest);
    WordReads(q, seen, x.word, x.how, inc, rest, left);
    ResponseFollows(r, seen, x, at, inc);
  }

  lemma {:induction false} AllNoiseIsCodes(before: seq<Noise>, at: nat)
    ensures Filtered(AllNoiseCodes(before, at))
    requires forall k | 0 <= k < |before| :: LegalNoise(before[k], at)
    decreases |before|
  {
    if before != [] {
      AllNoiseIsCodes(before[1..], at);
      assert LegalNoise(before[0], at);
    }
  }

  lemma AnswerIsCodes(word: nat, how: How, inc: bool)
    requires word < TWO32 && Reachable(how)
    ensures Filtered(AnswerCodes(word, how, inc))
  {
  }

  lemma {:induction false} AnswersAreCodes(seen: seq<nat>, rs: seq<Response>, at: nat, inc: bool)
    requires LegalAnswers(seen, rs, at, inc)
    ensures Filtered(Answers(rs, at, inc))
    decreases |rs|
  {
    if rs != [] {
      AllNoiseIsCodes(rs[0].before, at);
      AnswerIsCodes(rs[0].word, rs[0].how, inc);
      AnswersAreCodes(Seen(seen, rs[0]), rs[1..], Advance(at, inc), inc);
    }
  }

  /** Where `n` words from the byte address `a` on lead. */
  function Beyond(a: nat, n: nat, inc: bool): nat {
    if inc then (a + 4 * n) % TWO32 else a
  }

  lemma StepBeyond(a: nat, n: nat, inc: bool)
    requires a < TWO32 && n > 0
    ensures Beyond(Stride(a, inc), n - 1, inc) == Beyond(a, n, inc)
  {
  }

  lemma AdvanceSteps(at: nat, inc: bool)
    requires at < WORDS
    ensures Advance(at, inc) < WORDS && Advance(at, inc) * 4 == Stride(at * 4, inc)
  {
  }

  lemma ReportLater(rs: seq<Response>)
    requires rs != []
    ensures AnyReport(rs) <==> Reported(rs[0].before) || AnyReport(rs[1..])
  {
    if AnyReport(rs) {
      var k :| 0 <= k < |rs| && Reported(rs[k].before);
      if k > 0 {
        assert Reported(rs[1..][k - 1].before);
      }
    }
    if AnyReport(rs[1..]) {
      var k :| 0 <= k < |rs[1..]| && Reported(rs[1..][k].before);
      assert Reported(rs[k + 1].before);
    }
  }

  /** The reader after some answers. */
  function AfterAnswers(r: Reader, rs: seq<Response>, at: nat, inc: bool): (s: Reader)
    requires r.Valid() && at < WORDS
    ensures s.Valid()
    decreases |rs|
  {
    if rs == [] then r else AfterAnswers(AfterResponse(r, rs[0], at, inc), rs[1..], Advance(at, inc), inc)
  }

  /**
   * Whatever mixture of encodings a peer chooses, and whatever noise it puts between the words,
   * exactly its words are read.
   */
  lemma {:induction false} AnswersRead(r: Reader, seen: seq<nat>, rs: seq<Response>, at: nat, inc: bool, rest: seq<nat>)
    requires Follows(r, seen) && at < WORDS && LegalAnswers(seen, rs, at, inc) && Filtered(rest)
    ensures Filtered(Answers(rs, at, inc) + rest)
    ensures ReadWords(r, Answers(rs, at, inc) + rest, |rs|) == AllGot(WordsOf(rs), AfterAnswers(r, rs, at, inc), rest)
    ensures Follows(AfterAnswers(r, rs, at, inc), AllSeen(seen, rs))
    decreases |rs|
  {
    if rs == [] {
      assert Answers(rs, at, inc) + rest == rest;
    } else {
      var x := rs[0];
      var next := Advance(at, inc);
      var tail := Answers(rs[1..], next, inc) + rest;
      var m := AfterResponse(r, x, at, inc);
      AdvanceSteps(at, inc);
      AnswersAreCodes(Seen(seen, x), rs[1..], next, inc);
      ResponseReads(r, seen, x, at, inc, tail);
      AnswersRead(m, Seen(seen, x), rs[1..], next, inc, rest);
      AnswersSplit(rs, at, inc, rest);
      ReadWordsOn(r, Answers(rs, at, inc) + rest, |rs|, x.word, m, tail);
      WordsOfNext(rs);
    }
  }

  /**
   * After any legal answers and any noise, a bus error or reset ends the read of more words: those that
   * came are counted, the error is remembered, and what comes later is left for later.
   */
  lemma ReadFails(r: Reader, seen: seq<nat>, rs: seq<Response>, at: nat, inc: bool,
                  before: seq<Noise>, place: nat, code: nat, rest: seq<nat>, n: nat)
    requires Follows(r, seen) && at < WORDS && LegalAnswers(seen, rs, at, inc) && Filtered(rest)
    requires place < WORDS && (forall k | 0 <= k < |before| :: LegalNoise(before[k], place)) && (code == 3 || code == 5) && n > |rs|
    ensures var codes := Answers(rs, at, inc) + (AllNoiseCodes(before, place) + ([code] + rest));
            Filtered(codes)
            && ReadWords(r, codes, n)
               == Failed(|rs|, Quiet(AfterAnswers(r, rs, at, inc), before, place).(busErr := true), rest)
  {
    var m := AfterAnswers(r, rs, at, inc);
    var tail := AllNoiseCodes(before, place) + ([code] + rest);
    FaultReads(m, before, place, code, rest);
    AnswersRead(r, seen, rs, at, inc, tail);
    var t := Quiet(m, before, place).(busErr := true);
    FailsOf(r, Answers(rs, at, inc) + tail, WordsOf(rs), |rs|, n - |rs|, m, tail, t, rest, n);
  }

  lemma FailsAfter(r: Reader, codes: seq<nat>, words: seq<nat>, k: nat, m: Reader, tail: seq<nat>, t: Reader, rest: seq<nat>, n: nat)
    requires r.Valid() && Filtered(codes) && m.Valid() && Filtered(tail) && n > 0 && k == |words|
    requires ReadWords(r, codes, k) == AllGot(words, m, tail) && ReadWord(m, tail, 0) == BusError(t, rest)
    ensures ReadWords(r, codes, k + n) == Failed(k, t, rest)
  {
    FailsFirst(m, tail, t, rest, n);
    ReadWordsSplit(r, codes, k, n);
  }

  /** The same, of the number of words wanted. */
  lemma FailsWithin(r: Reader, codes: seq<nat>, k: nat, d: nat, t: Reader, rest: seq<nat>, n: nat)
    requires r.Valid() && Filtered(codes) && n == k + d && ReadWords(r, codes, k + d) == Failed(k, t, rest)
    ensures ReadWords(r, codes, n) == Failed(k, t, rest)
  {
  }

  lemma FailsOf(r: Reader, codes: seq<nat>, words: seq<nat>, k: nat, more: nat, m: Reader, tail: seq<nat>, t: Reader, rest: seq<nat>, n: nat)
    requires r.Valid() && Filtered(codes) && m.Valid() && Filtered(tail) && more > 0 && k == |words| && n == k + more
    requires ReadWords(r, codes, k) == AllGot(words, m, tail) && ReadWord(m, tail, 0) == BusError(t, rest)
    ensures ReadWords(r, codes, n) == Failed(k, t, rest)
  {
    FailsAfter(r, codes, words, k, m, tail, t, rest, more);
    FailsWithin(r, codes, k, more, t, rest, n);
  }

  lemma FailsFirst(m: Reader, tail: seq<nat>, t: Reader, rest: seq<nat>, n: nat)
    requires m.Valid() && Filtered(tail) && n > 0 && ReadWord(m, tail, 0) == BusError(t, rest)
    ensures ReadWords(m, tail, n) == Failed(0, t, rest)
  {
  }

  /** The address kept is the last one reported, or else the one there was, moved on with each word. */
  lemma {:induction false} AddressAfterAnswers(r: Reader, rs: seq<Response>, at: nat, inc: bool)
    requires r.Valid() && at < WORDS
    ensures var s := AfterAnswers(r, rs, at, inc);
            && s.known == (r.known || AnyReport(rs)) && s.busErr == r.busErr
            && s.last == Beyond(if AnyReport(rs) then at * 4 else r.last, |rs|, inc)
    decreases |rs|
  {
    if rs != [] {
      AdvanceSteps(at, inc);
      AddressAfterAnswers(AfterResponse(r, rs[0], at, inc), rs[1..], Advance(at, inc), inc);
      LastComposes(r.last, rs, at, inc);
    }
  }

  lemma WordsOfNext(rs: seq<Response>)
    requires rs != []
    ensures WordsOf(rs) == [rs[0].word] + WordsOf(rs[1..])
  {
  }

  lemma AnswersSplit(rs: seq<Response>, at: nat, inc: bool, rest: seq<nat>)
    requires rs != []
    ensures Answers(rs, at, inc) + rest
         == AllNoiseCodes(rs[0].before, at) + AnswerCodes(rs[0].word, rs[0].how, inc)
            + (Answers(rs[1..], Advance(at, inc), inc) + rest)
  {
  }

  lemma ReadWordsOn(r: Reader, codes: seq<nat>, n: nat, word: nat, m: Reader, tail: seq<nat>)
    requires r.Valid() && Filtered(codes) && n > 0 && ReadWord(r, codes, 0) == Got(word, m, tail)
    ensures ReadWords(r, codes, n) == Following([word], ReadWords(m, tail, n - 1))
  {
  }

  lemma LastComposes(last: nat, rs: seq<Response>, at: nat, inc: bool)
    requires last < TWO32 && at < WORDS && rs != []
    ensures var mid := Stride(if Reported(rs[0].before) then at * 4 else last, inc);
            Beyond(if AnyReport(rs[1..]) then Advance(at, inc) * 4 else mid, |rs| - 1, inc)
            == Beyond(if AnyReport(rs) then at * 4 else last, |rs|, inc)
    ensures AnyReport(rs) <==> Reported(rs[0].before) || AnyReport(rs[1..])
  {
    ReportLater(rs);
    AdvanceSteps(at, inc);
    StepBeyond(last, |rs|, inc);
    StepBeyond(at * 4, |rs|, inc);
  }
}
