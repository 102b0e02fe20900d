/**
 * The other end of the debug bus: it forms commands from codes, keeps an address and a dictionary of
 * the last 256 words written to it in full, and obeys one command at a time. An address that has been
 * set is `renewed` until the bus is used: the next read then begins with a report of it.
 */
module TtyPeer {
  import opened TtyCodec

  datatype Option<T> = None | Some(value: T)

  /** Word addresses have 30 bits. */
  const WORDS := 0x4000_0000

  datatype Transfer = Write(addr: nat, word: nat) | Read(addr: nat, len: nat, inc: bool)

  datatype Peer = Peer(table: seq<Option<nat>>, wr: nat, at: Option<nat>, renewed: bool, done: seq<Transfer>) {
    predicate Valid() {
      |table| == 256 && wr < 256
    }
  }

  /** How many codes a command takes, by its first one. */
  function Length(c: nat): (n: nat)
    ensures n > 0
  {
    if c < 8 then 6
    else if c < 0x10 then (c - 8) / 2 + 2
    else if c < 0x18 then 2
    else if c < 0x20 then 6
    else if c < 0x30 then 1
    else if c < 0x40 then 2
    else 1
  }

  /** A difference of `n` digits is signed. */
  function Signed(v: nat, n: nat): int {
    if 2 * v < Span(n) then v else v - Span(n)
  }

  function Advance(addr: nat, inc: bool): nat {
    if inc then Move(addr, 1) else addr
  }

  function Put(p: Peer, word: nat, inc: bool): Option<Peer> {
    if p.at == None then None
    else Some(p.(at := Some(Advance(p.at.value, inc)), renewed := false, done := p.done + [Write(p.at.value, word)]))
  }

  function Ask(p: Peer, len: nat, inc: bool): Option<Peer> {
    if p.at == None then None
    else
      var a := p.at.value;
      Some(p.(at := Some(if inc then Move(a, len) else a), renewed := false, done := p.done + [Read(a, len, inc)]))
  }

  /** The slot `back` words before the next one to be filled. */
  function Slot(wr: nat, back: nat): (s: nat)
    requires wr < 256
    ensures s < 256
  {
    (wr + 256 - back % 256) % 256
  }

  /** The code that ends a burst of writes: it stands where eight words without increment would be asked for. */
  const ENDOFWRITE := 0x2e

  datatype Command =
    | Nothing
    | Renew
    | Goto(addr: nat)
    | Shift(words: int)
    | Repeat(back: nat, inc: bool)
    | Store(word: nat, inc: bool)
    | Fetch(len: nat, inc: bool)

  /** The command a first code and the digits that follow it stand for. */
  function Decode(c: nat, digits: seq<nat>): Command {
    var v := Value(digits);
    var inc := c % 2 == 1;
    if c < 4 then Goto((c * WORDS + v) % WORDS)
    else if c < 8 then Renew
    else if c == ENDOFWRITE then Nothing
    else if c < 0x10 then (if inc then Shift(Signed(v, |digits|)) else Goto(v))
    else if c < 0x18 then Repeat((c - 0x10) / 2 * 64 + v, inc)
    else if c < 0x20 then Store((c - 0x18) / 2 * WORDS + v, inc)
    else if c < 0x30 then Fetch((c - 0x20) / 2 + 1, inc)
    else if c < 0x40 then Fetch((c - 0x30) / 2 * 64 + v + 9, inc)
    else Nothing
  }

  function Move(addr: nat, words: int): (a: nat)
    ensures a < WORDS
  {
    (addr + words) % WORDS
  }

  /** A command obeyed, or `None` where it makes no sense: no address yet, or a slot that holds nothing. */
  function Obey(p: Peer, c: Command): (q: Option<Peer>)
    requires p.Valid()
    ensures q.Some? ==> q.value.Valid()
  {
    match c
    case Nothing => Some(p)
    case Renew => Some(p.(renewed := true))
    case Goto(a) => Some(p.(at := Some(a), renewed := true))
    case Shift(n) => if p.at == None then None else Some(p.(at := Some(Move(p.at.value, n)), renewed := true))
    case Repeat(back, inc) =>
      var s := Slot(p.wr, back);
      if p.table[s] == None then None else Put(p, p.table[s].value, inc)
    case Store(word, inc) =>
      Put(p.(table := p.table[p.wr := Some(word)], wr := (p.wr + 1) % 256), word, inc)
    case Fetch(len, inc) => Ask(p, len, inc)
  }

  /** A stream of codes, command by command; `None` where it is cut short or makes no sense. */
  function Run(p: Peer, codes: seq<nat>): (q: Option<Peer>)
    requires p.Valid()
    ensures q.Some? ==> q.value.Valid()
    decreases |codes|
  {
    if codes == [] then Some(p)
    else
      var n := Length(codes[0]);
      if |codes| < n then None
      else
        match Obey(p, Decode(codes[0], codes[1..n]))
        case None => None
        case Some(q) => Run(q, codes[n..])
  }

  lemma RunOne(p: Peer, c: nat, digits: seq<nat>, command: Command)
    requires p.Valid() && 1 + |digits| == Length(c) && Decode(c, digits) == command
    ensures Run(p, [c] + digits) == Obey(p, command)
  {
    var codes := [c] + digits;
    assert codes[1..Length(c)] == digits && codes[Length(c)..] == [];
  }

  lemma {:induction false} RunAppend(p: Peer, x: seq<nat>, y: seq<nat>)
    requires p.Valid() && Run(p, x).Some?
    ensures Run(p, x + y) == Run(Run(p, x).value, y)
    decreases |x|
  {
    if x == [] {
      assert x + y == y;
    } else {
      var n := Length(x[0]);
      var codes := x + y;
      assert codes[0] == x[0] && codes[1..n] == x[1..n] && codes[n..] == x[n..] + y;
      RunAppend(Obey(p, Decode(x[0], x[1..n])).value, x[n..], y);
    }
  }
}
