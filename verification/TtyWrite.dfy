/** Vector writes: each word in full, or as its distance back in a dictionary both ends keep. */
module TtyWrite {
  import opened Words
  import opened TtyChars
  import opened TtyCodec
  import opened TtyPeer
  import opened TtyAddress

  /** What the host keeps for writing: its dictionary, and where it believes the peer to be. */
  datatype Host = Host(table: seq<nat>, wr: nat, loaded: bool, known: bool, last: nat) {
    predicate Valid() {
      |table| == 256 && wr < 256 && Aligned(last)
    }

    /** Slots hold something once the write pointer has passed them. */
    predicate Filled(k: nat) {
      loaded || k < wr
    }
  }

  predicate IsWord(w: nat) {
    w < TWO32
  }

  /** The search of the dictionary, from `i` words back on: 0 where it finds nothing. */
  function Back(h: Host, word: nat, i: nat): nat
    requires h.Valid()
    decreases 256 - i
  {
    if i >= 256 then 0
    else
      var s := Slot(h.wr, i);
      if !h.loaded && s > h.wr then 0
      else if h.table[s] == word then i
      else Back(h, word, i + 1)
  }

  function WordCodes(h: Host, word: nat, inc: bool): seq<nat>
    requires h.Valid()
  {
    var back := Back(h, word, 1);
    if back != 0 then [0x10 + back / 64 * 2 + if inc then 1 else 0] + Digits(back, 1)
    else [0x18 + word / WORDS * 2 + if inc then 1 else 0] + Digits(word, 5)
  }

  /** The host's dictionary after a word sent in full. */
  function Entered(h: Host, word: nat): (g: Host)
    requires h.Valid()
    ensures g.Valid()
  {
    h.(table := h.table[h.wr := word], wr := (h.wr + 1) % 256, loaded := h.loaded || h.wr == 255)
  }

  function Stepped(h: Host, inc: bool): (g: Host)
    requires h.Valid()
    ensures g.Valid()
  {
    if inc then h.(last := (h.last + 4) % TWO32) else h
  }

  function AfterWord(h: Host, word: nat, inc: bool): (g: Host)
    requires h.Valid()
    ensures g.Valid() && g.known == h.known
  {
    Stepped(if Back(h, word, 1) != 0 then h else Entered(h, word), inc)
  }

  /** The words of a vector, in order. */
  function WordsCodes(h: Host, words: seq<nat>, inc: bool): seq<nat>
    requires h.Valid()
    decreases |words|
  {
    if words == [] then []
    else
      var n := |words| - 1;
      WordsCodes(h, words[..n], inc) + WordCodes(AfterWords(h, words[..n], inc), words[n], inc)
  }

  function AfterWords(h: Host, words: seq<nat>, inc: bool): (g: Host)
    requires h.Valid()
    ensures g.Valid() && g.known == h.known
    decreases |words|
  {
    if words == [] then h
    else
      var n := |words| - 1;
      AfterWord(AfterWords(h, words[..n], inc), words[n], inc)
  }

  /** A call of `writev`. */
  datatype Call = Call(addr: nat, inc: bool, words: seq<nat>) {
    predicate Valid() {
      addr < TWO32 && forall k | 0 <= k < |words| :: IsWord(words[k])
    }
  }

  /** What `writev` sends: nothing for a misaligned address or for no words. */
  function CallCodes(h: Host, c: Call): seq<nat>
    requires h.Valid() && c.Valid()
  {
    if c.addr % 4 != 0 || c.words == [] then []
    else
      AddressCodes(c.addr, h.known, h.last)
      + WordsCodes(h.(known := true, last := c.addr), c.words, c.inc)
      + [INVALID]
  }

  /** The host after `writev`: a misaligned address is refused before anything changes. */
  function AfterCall(h: Host, c: Call): (g: Host)
    requires h.Valid() && c.Valid()
    ensures g.Valid()
  {
    if c.addr % 4 != 0 then h
    else AfterWords(h.(known := true, last := c.addr), c.words, c.inc)
  }

  /** What a caller of `writev` asks for: each word at the next address, or all at the same one. */
  function Requested(c: Call): seq<Transfer> {
    if c.addr % 4 != 0 then []
    else seq(|c.words|, k requires 0 <= k < |c.words| => Write(Move(c.addr / 4, if c.inc then k else 0), c.words[k]))
  }

  /** A call asks for its words, in order, at the byte address it names and, if it moves on, at each fourth after it. */
  lemma RequestedAtBytes(c: Call, k: nat)
    requires c.Valid() && c.addr % 4 == 0 && k < |c.words|
    ensures |Requested(c)| == |c.words| && Requested(c)[k].Write? && Requested(c)[k].word == c.words[k]
    ensures 4 * Requested(c)[k].addr == (c.addr + (if c.inc then 4 * k else 0)) % 0x1_0000_0000
  {
    WordsInBytes(c.addr, if c.inc then k else 0);
  }

  lemma WordsInBytes(a: nat, k: nat)
    requires a % 4 == 0
    ensures 4 * Move(a / 4, k) == (a + 4 * k) % 0x1_0000_0000
  {
    var x := a / 4 + k;
    var q, r := x / WORDS, x % WORDS;
    assert a + 4 * k == q * 0x1_0000_0000 + 4 * r;
    DivModUnique(a + 4 * k, 0x1_0000_0000, q, 4 * r);
  }

  // ----- the dictionaries agree

  /** The peer's dictionary and address are what the host takes them to be. */
  ghost predicate Agree(h: Host, p: Peer) {
    && h.Valid() && p.Valid() && p.wr == h.wr
    && (h.known ==> p.at == Some(h.last / 4))
    && forall k | 0 <= k < 256 && h.Filled(k) :: p.table[k] == Some(h.table[k]) && IsWord(h.table[k])
  }

  lemma SlotAt(wr: nat, i: nat)
    requires wr < 256 && 0 < i < 256
    ensures Slot(wr, i) == if i <= wr then wr - i else 256 + wr - i
  {
  }

  lemma NoneFilled(h: Host, i: nat)
    requires h.Valid() && 0 < i < 256 && !h.loaded && Slot(h.wr, i) > h.wr
    ensures forall j | i <= j < 256 :: !h.Filled(Slot(h.wr, j))
  {
    SlotAt(h.wr, i);
    forall j | i <= j < 256
      ensures !h.Filled(Slot(h.wr, j))
    {
      SlotAt(h.wr, j);
    }
  }

  /** The search finds the nearest filled slot that holds the word, if there is one. */
  lemma {:induction false} BackIsNearest(h: Host, word: nat, i: nat)
    requires h.Valid() && 0 < i
    ensures var r := Back(h, word, i);
            && (r != 0 ==> i <= r < 256 && h.Filled(Slot(h.wr, r)) && h.table[Slot(h.wr, r)] == word)
            && forall j | i <= j < 256 && (r == 0 || j < r) && h.Filled(Slot(h.wr, j)) :: h.table[Slot(h.wr, j)] != word
    decreases 256 - i
  {
    if i < 256 {
      SlotAt(h.wr, i);
      if !h.loaded && Slot(h.wr, i) > h.wr {
        NoneFilled(h, i);
      } else if h.table[Slot(h.wr, i)] != word {
        BackIsNearest(h, word, i + 1);
      }
    }
  }

  lemma RepeatDecodes(c: nat, back: nat, inc: bool, digits: seq<nat>)
    requires back < 256 && c == 0x10 + back / 64 * 2 + (if inc then 1 else 0)
    requires Value(digits) == back % 64
    ensures Length(c) == 2 && Decode(c, digits) == Repeat(back, inc)
  {
  }

  lemma StoreDecodes(c: nat, word: nat, inc: bool, digits: seq<nat>)
    requires IsWord(word) && c == 0x18 + word / WORDS * 2 + (if inc then 1 else 0)
    requires Value(digits) == word % WORDS
    ensures Length(c) == 6 && Decode(c, digits) == Store(word, inc)
  {
  }

  lemma RepeatArrives(p: Peer, back: nat, inc: bool)
    requires p.Valid() && 0 < back < 256
    ensures Run(p, [0x10 + back / 64 * 2 + if inc then 1 else 0] + Digits(back, 1)) == Obey(p, Repeat(back, inc))
  {
    var c := 0x10 + back / 64 * 2 + if inc then 1 else 0;
    ValueOfOne(back);
    RepeatDecodes(c, back, inc, Digits(back, 1));
    RunOne(p, c, Digits(back, 1), Repeat(back, inc));
  }

  lemma StoreArrives(p: Peer, word: nat, inc: bool)
    requires p.Valid() && IsWord(word)
    ensures Run(p, [0x18 + word / WORDS * 2 + if inc then 1 else 0] + Digits(word, 5)) == Obey(p, Store(word, inc))
  {
    var c := 0x18 + word / WORDS * 2 + if inc then 1 else 0;
    ValueOfFive(word);
    StoreDecodes(c, word, inc, Digits(word, 5));
    RunOne(p, c, Digits(word, 5), Store(word, inc));
  }

  lemma LastFollows(last: nat, inc: bool)
    requires Aligned(last)
    ensures var next := if inc then (last + 4) % TWO32 else last;
            Aligned(next) && next / 4 == Advance(last / 4, inc)
  {
  }

  /** The codes take a peer in step with `h` to one in step with `g`, doing exactly `transfers`. */
  ghost predicate Carries(h: Host, p: Peer, codes: seq<nat>, g: Host, q: Peer, transfers: seq<Transfer>) {
    Agree(h, p) && Run(p, codes) == Some(q) && Agree(g, q) && q.done == p.done + transfers
  }

  lemma CarriesOn(h: Host, p: Peer, x: seq<nat>, g: Host, q: Peer, s: seq<Transfer>, y: seq<nat>, k: Host, r: Peer, t: seq<Transfer>)
    requires Carries(h, p, x, g, q, s) && Carries(g, q, y, k, r, t)
    ensures Carries(h, p, x + y, k, r, s + t)
  {
    RunAppend(p, x, y);
  }

  lemma RepeatFills(h: Host, p: Peer, word: nat, inc: bool, back: nat)
    requires Agree(h, p) && h.known && 0 < back < 256
    requires h.Filled(Slot(h.wr, back)) && h.table[Slot(h.wr, back)] == word
    ensures Obey(p, Repeat(back, inc)) == Put(p, word, inc)
  {
  }

  lemma StoreFills(h: Host, p: Peer, word: nat)
    requires Agree(h, p) && IsWord(word)
    ensures Agree(Entered(h, word),
                  p.(table := p.table[p.wr := Some(word)], wr := (p.wr + 1) % 256))
  {
  }

  lemma PutMoves(h: Host, p: Peer, word: nat, inc: bool)
    requires Agree(h, p) && h.known
    ensures Put(p, word, inc).Some?
    ensures Agree(Stepped(h, inc), Put(p, word, inc).value)
    ensures Put(p, word, inc).value.done == p.done + [Write(h.last / 4, word)] && !Put(p, word, inc).value.renewed
  {
    LastFollows(h.last, inc);
  }

  /** One word arrives, and both ends enter it, or neither does. */
  lemma WordArrives(h: Host, p: Peer, word: nat, inc: bool) returns (q: Peer)
    requires Agree(h, p) && h.known && IsWord(word)
    ensures Carries(h, p, WordCodes(h, word, inc), AfterWord(h, word, inc), q, [Write(h.last / 4, word)])
    ensures !q.renewed
  {
    if Back(h, word, 1) != 0 {
      q := KnownWordArrives(h, p, word, inc);
    } else {
      q := NewWordArrives(h, p, word, inc);
    }
  }

  lemma KnownWordArrives(h: Host, p: Peer, word: nat, inc: bool) returns (q: Peer)
    requires Agree(h, p) && h.known && Back(h, word, 1) != 0
    ensures Carries(h, p, WordCodes(h, word, inc), AfterWord(h, word, inc), q, [Write(h.last / 4, word)])
    ensures !q.renewed
  {
    var back := Back(h, word, 1);
    BackIsNearest(h, word, 1);
    RepeatArrives(p, back, inc);
    RepeatFills(h, p, word, inc, back);
    PutMoves(h, p, word, inc);
    q := Put(p, word, inc).value;
    assert AfterWord(h, word, inc) == Stepped(h, inc);
  }

  lemma NewWordArrives(h: Host, p: Peer, word: nat, inc: bool) returns (q: Peer)
    requires Agree(h, p) && h.known && IsWord(word) && Back(h, word, 1) == 0
    ensures Carries(h, p, WordCodes(h, word, inc), AfterWord(h, word, inc), q, [Write(h.last / 4, word)])
    ensures !q.renewed
  {
    StoreArrives(p, word, inc);
    StoreFills(h, p, word);
    var g := Entered(h, word);
    var m := p.(table := p.table[p.wr := Some(word)], wr := (p.wr + 1) % 256);
    PutMoves(g, m, word, inc);
    q := Put(m, word, inc).value;
    assert AfterWord(h, word, inc) == Stepped(g, inc);
  }

  /** The address of the next word of a vector. */
  lemma MovesOn(addr: nat, n: nat, inc: bool)
    ensures Advance(Move(addr, if inc then n else 0), inc) == Move(addr, if inc then n + 1 else 0)
  {
  }

  lemma {:induction false} LastAfterWords(h: Host, words: seq<nat>, inc: bool)
    requires h.Valid()
    ensures AfterWords(h, words, inc).last / 4 == Move(h.last / 4, if inc then |words| else 0)
    decreases |words|
  {
    if words != [] {
      var n := |words| - 1;
      LastAfterWords(h, words[..n], inc);
      MovesOn(h.last / 4, n, inc);
      LastFollows(AfterWords(h, words[..n], inc).last, inc);
    }
  }

  lemma {:induction false} WordsArrive(h: Host, p: Peer, words: seq<nat>, inc: bool) returns (q: Peer)
    requires Agree(h, p) && h.known && forall k | 0 <= k < |words| :: IsWord(words[k])
    ensures Carries(h, p, WordsCodes(h, words, inc), AfterWords(h, words, inc), q, Requested(Call(h.last, inc, words)))
    ensures q.renewed == (p.renewed && words == [])
    decreases |words|
  {
    if words == [] {
      q := NothingArrives(h, p, words, inc);
    } else {
      var m := WordsArrive(h, p, words[..|words| - 1], inc);
      q := LastWordArrives(h, p, words, inc, AfterWords(h, words[..|words| - 1], inc), m);
    }
  }

  lemma NothingArrives(h: Host, p: Peer, words: seq<nat>, inc: bool) returns (q: Peer)
    requires Agree(h, p) && words == []
    ensures q == p && Carries(h, p, WordsCodes(h, words, inc), AfterWords(h, words, inc), q, Requested(Call(h.last, inc, words)))
  {
    q := p;
  }

  lemma LastWordArrives(h: Host, p: Peer, words: seq<nat>, inc: bool, g: Host, m: Peer) returns (q: Peer)
    requires Agree(h, p) && words != [] && IsWord(words[|words| - 1]) && h.known
    requires var n := |words| - 1;
             && g == AfterWords(h, words[..n], inc)
             && Carries(h, p, WordsCodes(h, words[..n], inc), g, m, Requested(Call(h.last, inc, words[..n])))
    ensures Carries(h, p, WordsCodes(h, words, inc), AfterWords(h, words, inc), q, Requested(Call(h.last, inc, words)))
    ensures !q.renewed
  {
    var n := |words| - 1;
    LastAfterWords(h, words[..n], inc);
    RequestedSplits(Call(h.last, inc, words));
    q := WordArrives(g, m, words[n], inc);
    CarriesOn(h, p, WordsCodes(h, words[..n], inc), g, m, Requested(Call(h.last, inc, words[..n])),
              WordCodes(g, words[n], inc), AfterWords(h, words, inc), q, [Write(g.last / 4, words[n])]);
  }

  lemma RequestedSplits(c: Call)
    requires c.addr % 4 == 0 && c.words != []
    ensures var n := |c.words| - 1;
            Requested(c) == Requested(c.(words := c.words[..n])) + [Write(Move(c.addr / 4, if c.inc then n else 0), c.words[n])]
  {
  }

  lemma NewlineIsIgnored(p: Peer)
    requires p.Valid()
    ensures Run(p, [INVALID]) == Some(p)
  {
    RunOne(p, INVALID, [], Nothing);
    assert [INVALID] + [] == [INVALID];
  }

  /**
   * A call that does not leave the host with an address it has not sent: it has words, or its address
   * is refused, or is the one the host has already.
   */
  predicate Harmless(h: Host, c: Call) {
    c.addr % 4 != 0 || c.words != [] || (h.known && c.addr == h.last)
  }

  /**
   * One call of `writev`: the peer does exactly the writes asked for. Its address and dictionary
   * are again what the host takes them to be, unless the call had no words: then the host notes an
   * address it never sent.
   */
  lemma CallArrives(h: Host, p: Peer, c: Call) returns (q: Peer)
    requires Agree(h, p) && c.Valid()
    ensures Run(p, CallCodes(h, c)) == Some(q)
    ensures q.done == p.done + Requested(c)
    ensures Agree(AfterCall(h, c), q) <==> c.addr % 4 != 0 || c.words != [] || p.at == Some(c.addr / 4)
    ensures h.known ==> (Agree(AfterCall(h, c), q) <==> Harmless(h, c))
    ensures q.renewed == (p.renewed && Requested(c) == [])
  {
    if c.addr % 4 != 0 || c.words == [] {
      q := p;
    } else {
      q := CallCarries(h, p, c);
    }
  }

  lemma CallCarries(h: Host, p: Peer, c: Call) returns (q: Peer)
    requires Agree(h, p) && c.Valid() && Harmless(h, c)
    ensures Carries(h, p, CallCodes(h, c), AfterCall(h, c), q, Requested(c))
    ensures q.renewed == (p.renewed && Requested(c) == [])
  {
    if c.addr % 4 != 0 || c.words == [] {
      q := p;
    } else {
      var start := h.(known := true, last := c.addr);
      var address := AddressCodes(c.addr, h.known, h.last);
      AddressArrives(p, c.addr, h.known, h.last);
      var m := Told(p, c.addr, h.known, h.last);
      q := WordsArrive(start, m, c.words, c.inc);
      var words := WordsCodes(start, c.words, c.inc);
      NewlineIsIgnored(q);
      CarriesOn(h, p, address, start, m, [], words, AfterCall(h, c), q, Requested(c));
      CarriesOn(h, p, address + words, AfterCall(h, c), q, [] + Requested(c), [INVALID], AfterCall(h, c), q, []);
      assert [] + Requested(c) + [] == Requested(c);
    }
  }

  // ----- any sequence of calls

  function SessionCodes(h: Host, calls: seq<Call>): seq<nat>
    requires h.Valid() && forall k | 0 <= k < |calls| :: calls[k].Valid()
    decreases |calls|
  {
    if calls == [] then []
    else CallCodes(h, calls[0]) + SessionCodes(AfterCall(h, calls[0]), calls[1..])
  }

  function AfterSession(h: Host, calls: seq<Call>): (g: Host)
    requires h.Valid() && forall k | 0 <= k < |calls| :: calls[k].Valid()
    ensures g.Valid()
    decreases |calls|
  {
    if calls == [] then h else AfterSession(AfterCall(h, calls[0]), calls[1..])
  }

  function AllRequested(calls: seq<Call>): seq<Transfer>
    decreases |calls|
  {
    if calls == [] then [] else Requested(calls[0]) + AllRequested(calls[1..])
  }

  /** Every call is harmless where it is made. */
  predicate HarmlessSession(h: Host, calls: seq<Call>)
    requires h.Valid() && forall k | 0 <= k < |calls| :: calls[k].Valid()
    decreases |calls|
  {
    calls == [] || (Harmless(h, calls[0]) && HarmlessSession(AfterCall(h, calls[0]), calls[1..]))
  }

  lemma {:induction false} SessionArrives(h: Host, p: Peer, calls: seq<Call>) returns (q: Peer)
    requires Agree(h, p) && (forall k | 0 <= k < |calls| :: calls[k].Valid()) && HarmlessSession(h, calls)
    ensures Carries(h, p, SessionCodes(h, calls), AfterSession(h, calls), q, AllRequested(calls))
    decreases |calls|
  {
    if calls == [] {
      q := p;
    } else {
      var c := calls[0];
      var g := AfterCall(h, c);
      var m := CallCarries(h, p, c);
      q := SessionArrives(g, m, calls[1..]);
      CarriesOn(h, p, CallCodes(h, c), g, m, Requested(c),
                SessionCodes(g, calls[1..]), AfterSession(g, calls[1..]), q, AllRequested(calls[1..]));
    }
  }

  // ----- as characters

  predicate AreCodes(codes: seq<nat>) {
    forall k | 0 <= k < |codes| :: IsCode(codes[k])
  }

  lemma {:induction false} WordsCodesAreCodes(h: Host, words: seq<nat>, inc: bool)
    requires h.Valid() && forall k | 0 <= k < |words| :: IsWord(words[k])
    ensures AreCodes(WordsCodes(h, words, inc))
    decreases |words|
  {
    if words != [] {
      var n := |words| - 1;
      WordsCodesAreCodes(h, words[..n], inc);
      WordCodesAreCodes(AfterWords(h, words[..n], inc), words[n], inc);
    }
  }

  lemma WordCodesAreCodes(h: Host, word: nat, inc: bool)
    requires h.Valid() && IsWord(word)
    ensures AreCodes(WordCodes(h, word, inc)) && 0 < |WordCodes(h, word, inc)| <= 6
  {
    BackIsNearest(h, word, 1);
  }

  lemma {:induction false} SessionCodesAreCodes(h: Host, calls: seq<Call>)
    requires h.Valid() && forall k | 0 <= k < |calls| :: calls[k].Valid()
    ensures AreCodes(SessionCodes(h, calls))
    decreases |calls|
  {
    if calls != [] {
      SessionCodesAreCodes(AfterCall(h, calls[0]), calls[1..]);
      CallCodesAreCodes(h, calls[0]);
    }
  }

  lemma CallCodesAreCodes(h: Host, c: Call)
    requires h.Valid() && c.Valid()
    ensures AreCodes(CallCodes(h, c))
  {
    if c.addr % 4 == 0 {
      AddressCodesAreCodes(c.addr, h.known, h.last);
      WordsCodesAreCodes(h.(known := true, last := c.addr), c.words, c.inc);
    }
  }

  function NewHost(): Host {
    Host(seq(256, k => 0), 0, false, false, 0)
  }

  function NewPeer(): Peer {
    Peer(seq(256, k => None), 0, None, true, [])
  }

  /**
   * From power-up, the characters of any sequence of harmless calls, whatever their addresses,
   * increments and lengths, make the peer do exactly the writes asked for, in order.
   */
  lemma {:induction false} EverySessionArrives(calls: seq<Call>) returns (q: Peer)
    requires (forall k | 0 <= k < |calls| :: calls[k].Valid()) && HarmlessSession(NewHost(), calls)
    ensures Run(NewPeer(), CodesHeard(Text(SessionCodes(NewHost(), calls)))) == Some(q)
    ensures q.done == AllRequested(calls) && Agree(AfterSession(NewHost(), calls), q)
  {
    SessionCodesAreCodes(NewHost(), calls);
    TextIsHeard(SessionCodes(NewHost(), calls));
    q := SessionArrives(NewHost(), NewPeer(), calls);
  }

  // ----- calls without words

  /** The two hosts hold the same dictionary. */
  predicate SameBook(h: Host, g: Host) {
    h.table == g.table && h.wr == g.wr && h.loaded == g.loaded
  }

  lemma {:induction false} BackByBook(h: Host, g: Host, word: nat, i: nat)
    requires h.Valid() && g.Valid() && SameBook(h, g)
    ensures Back(h, word, i) == Back(g, word, i)
    decreases 256 - i
  {
    if i < 256 {
      BackByBook(h, g, word, i + 1);
    }
  }

  lemma WordByBook(h: Host, g: Host, word: nat, inc: bool)
    requires h.Valid() && g.Valid() && SameBook(h, g)
    ensures WordCodes(h, word, inc) == WordCodes(g, word, inc)
    ensures SameBook(AfterWord(h, word, inc), AfterWord(g, word, inc))
  {
    BackByBook(h, g, word, 1);
  }

  lemma {:induction false} WordsByBook(h: Host, g: Host, words: seq<nat>, inc: bool)
    requires h.Valid() && g.Valid() && SameBook(h, g)
    ensures WordsCodes(h, words, inc) == WordsCodes(g, words, inc)
    ensures SameBook(AfterWords(h, words, inc), AfterWords(g, words, inc))
    decreases |words|
  {
    if words != [] {
      var n := |words| - 1;
      WordsByBook(h, g, words[..n], inc);
      WordByBook(AfterWords(h, words[..n], inc), AfterWords(g, words[..n], inc), words[n], inc);
    }
  }

  /** Whether `encode_address` sends the difference to the last address, or nothing where there is none. */
  predicate SendsDifference(a: nat, last: nat)
    requires a < TWO32 && last < TWO32
  {
    a == last || IsDifference(AddressCodes(a, true, last)[0])
  }

  /** Where a call to `a` writes when the host has noted `noted` and the peer is at `last`. */
  function Landing(a: nat, noted: nat, last: nat): (b: nat)
    requires a < TWO32 && noted < TWO32 && last < TWO32
    ensures b < TWO32
  {
    if SendsDifference(a, noted) then (last + a + TWO32 - noted) % TWO32 else a
  }

  lemma WrapsOnce(x: nat)
    requires x < 2 * TWO32
    ensures x % TWO32 == if x < TWO32 then x else x - TWO32
  {
  }

  lemma LandingWraps(a: nat, noted: nat, last: nat)
    requires a < TWO32 && noted < TWO32 && last < TWO32
    ensures (last + a + TWO32 - noted) % TWO32 == (last + (a + TWO32 - noted) % TWO32) % TWO32
  {
  }

  lemma MoveWraps(at: nat, d: nat)
    requires at < WORDS && d < WORDS
    ensures Move(at, d) == if at + d < WORDS then at + d else at + d - WORDS
  {
  }

  lemma DifferenceLands(a: nat, noted: nat, last: nat)
    requires Aligned(a) && Aligned(noted) && Aligned(last)
    ensures var b := (last + a + TWO32 - noted) % TWO32;
            Aligned(b) && Move(last / 4, Difference(a, noted)) == b / 4 && (b == a <==> last == noted)
  {
    LandingWraps(a, noted, last);
    WrapsOnce(a + TWO32 - noted);
    var d := if a < noted then a + TWO32 - noted else a - noted;
    WrapsOnce(last + d);
    MoveWraps(last / 4, d / 4);
  }

  /** Which form is preferred to a difference command. */
  lemma PreferredForm(addr: nat, diff: seq<nat>) returns (n: nat)
    requires addr < WORDS
    ensures var c := PreferAbsolute(addr, diff);
            || (c == diff && diff != [])
            || c == [0] + Digits(addr, 5)
            || (1 <= n <= 4 && addr < Span(n) && c == [6 + 2 * n] + Digits(addr, n))
  {
    Spans();
    n := if addr <= 0x3f then 1 else if addr <= 0xfff then 2 else if addr <= 0x3_ffff then 3 else 4;
  }

  /** Which form an address command takes. */
  lemma AddressForm(a: nat, last: nat) returns (n: nat)
    requires Aligned(a) && Aligned(last) && a != last
    ensures var c := AddressCodes(a, true, last);
            if SendsDifference(a, last) then
              1 <= n <= 4 && 2 * Difference(a, last) < Span(n) && c == [7 + 2 * n] + Digits(Difference(a, last), n)
            else if c[0] == 0 then c == [0] + Digits(a / 4, 5)
            else 1 <= n <= 4 && a / 4 < Span(n) && c == [6 + 2 * n] + Digits(a / 4, n)
  {
    var d := Difference(a, last);
    var c := AddressCodes(a, true, last);
    n := PreferredForm(a / 4, DifferenceCodes(d));
    FormParity(n);
    if c == DifferenceCodes(d) && c != [] {
      n := DifferenceIsShort(d);
      FormParity(n);
      assert c[0] == 7 + 2 * n;
    } else if c == [0] + Digits(a / 4, 5) {
      assert c[0] == 0;
    } else {
      assert c[0] == 6 + 2 * n;
    }
  }

  lemma FormParity(n: nat)
    ensures IsDifference(7 + 2 * n) <==> n >= 1
    ensures !IsDifference(6 + 2 * n)
  {
  }

  lemma AddressLands(p: Peer, a: nat, noted: nat, last: nat)
    requires p.Valid() && Aligned(a) && Aligned(noted) && Aligned(last) && p.at == Some(last / 4)
    ensures var q := if a == noted then p else At(p, Landing(a, noted, last) / 4).value;
            Run(p, AddressCodes(a, true, noted)) == Some(q) && q.at == Some(Landing(a, noted, last) / 4)
  {
    DifferenceLands(a, noted, last);
    if a != noted {
      var n := AddressForm(a, noted);
      if SendsDifference(a, noted) {
        DifferenceArrives(p, Difference(a, noted), n);
      } else if AddressCodes(a, true, noted)[0] == 0 {
        FullArrives(p, a / 4);
      } else {
        AbsoluteArrives(p, a / 4, n);
      }
    }
  }

  /**
   * After a call to `noted` without words, the next call is carried out, but where it lands: off by
   * as much as the peer is from `noted`, unless its address is sent in an absolute form.
   */
  lemma EmptyCallMisplacesNext(h: Host, p: Peer, noted: nat, c: Call) returns (q: Peer)
    requires Agree(h, p) && h.known && Aligned(noted) && c.Valid() && c.addr % 4 == 0 && c.words != []
    ensures Run(p, CallCodes(AfterCall(h, Call(noted, c.inc, [])), c)) == Some(q)
    ensures q.done == p.done + Requested(c.(addr := Landing(c.addr, noted, h.last)))
    ensures Landing(c.addr, noted, h.last) == c.addr <==> noted == h.last || !SendsDifference(c.addr, noted)
  {
    var b := Landing(c.addr, noted, h.last);
    DifferenceLands(c.addr, noted, h.last);
    AddressLands(p, c.addr, noted, h.last);
    var m := Run(p, AddressCodes(c.addr, true, noted)).value;
    var g := AfterCall(h, Call(noted, c.inc, []));
    var start, moved := g.(known := true, last := c.addr), h.(last := b);
    WordsByBook(start, moved, c.words, c.inc);
    q := WordsArrive(moved, m, c.words, c.inc);
    NewlineIsIgnored(q);
    var words := WordsCodes(start, c.words, c.inc);
    RunAppend(p, AddressCodes(c.addr, true, noted), words);
    RunAppend(p, AddressCodes(c.addr, true, noted) + words, [INVALID]);
  }

  /** For instance, the first call of all. */
  lemma EmptyCallLosesPeer()
    ensures var c := Call(64, false, []);
            Agree(NewHost(), NewPeer()) && CallCodes(NewHost(), c) == [] && !Agree(AfterCall(NewHost(), c), NewPeer())
  {
  }
}
