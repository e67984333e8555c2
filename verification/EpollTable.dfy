/**
 The table that turns a coalesced change of one file descriptor into one epoll_ctl call.

 A change says, for reading, writing and close notification, whether the event was added
 (1), deleted (2) or left alone (0) since the kernel was last told, and which events the
 kernel was told to watch. Each table index holds one operation.
 */
module EpollTable {

  const EV_CHANGE_ADD: nat := 1
  const EV_CHANGE_DEL: nat := 2

  /** Which of EV_READ / EPOLLIN, EV_WRITE / EPOLLOUT and EV_CLOSED / EPOLLRDHUP are meant. */
  datatype Interest = Interest(read: bool, write: bool, close: bool)

  const O := Interest(false, false, false)
  const R := Interest(true, false, false)
  const W := Interest(false, true, false)
  const C := Interest(false, false, true)
  const RW := Interest(true, true, false)
  const RC := Interest(true, false, true)
  const WC := Interest(false, true, true)
  const RWC := Interest(true, true, true)

  /** One entry: an EPOLL_CTL operation with its event mask, nothing to do, or a code that cannot occur. */
  datatype Operation = Nothing | Add(events: Interest) | Mod(events: Interest) | Del(events: Interest) | Invalid

  datatype EventChange = EventChange(fd: int, oldEvents: Interest, readChange: nat, writeChange: nat, closeChange: nat)

  function Bit(b: bool): nat {
    if b then 1 else 0
  }

  /** EPOLL_OP_TABLE_INDEX: two bits a change, then one bit for each event watched before. */
  function TableIndex(c: EventChange): (i: nat)
    ensures i < 512
  {
    c.closeChange % 4 + c.readChange % 4 * 4 + c.writeChange % 4 * 16
    + Bit(c.oldEvents.read) * 64 + Bit(c.oldEvents.write) * 128 + Bit(c.oldEvents.close) * 256
  }

  /** epoll_op_table, addressed by its index. */
  function OpAt(i: nat): Operation
    requires i < 512
  {
    Rows(i / 64, i / 16 % 4, i / 4 % 4)[i % 4]
  }

  function Rows(was: nat, write: nat, read: nat): (r: seq<Operation>)
    requires was < 8 && write < 4 && read < 4
    ensures |r| == 4
  {
    if was == 0 then Row0(write, read)
    else if was == 1 then Row1(write, read)
    else if was == 2 then Row2(write, read)
    else if was == 3 then Row3(write, read)
    else if was == 4 then Row4(write, read)
    else if was == 5 then Row5(write, read)
    else if was == 6 then Row6(write, read)
    else Row7(write, read)
  }

  function Row0(write: nat, read: nat): (r: seq<Operation>)
    requires write < 4 && read < 4
    ensures |r| == 4
  {
    match (write, read)
    case (0, 0) => [Nothing, Add(C), Del(C), Invalid]
    case (0, 1) => [Add(R), Add(RC), Add(R), Invalid]
    case (0, 2) => [Del(R), Add(C), Del(RC), Invalid]
    case (1, 0) => [Add(W), Add(WC), Add(W), Invalid]
    case (1, 1) => [Add(RW), Add(RWC), Add(RW), Invalid]
    case (1, 2) => [Add(W), Add(WC), Add(W), Invalid]
    case (2, 0) => [Del(W), Add(C), Del(WC), Invalid]
    case (2, 1) => [Add(R), Add(RC), Add(R), Invalid]
    case (2, 2) => [Del(RW), Add(C), Del(RWC), Invalid]
    case _ => [Invalid, Invalid, Invalid, Invalid]
  }

  function Row1(write: nat, read: nat): (r: seq<Operation>)
    requires write < 4 && read < 4
    ensures |r| == 4
  {
    match (write, read)
    case (0, 0) => [Nothing, Mod(RC), Mod(R), Invalid]
    case (0, 1) => [Mod(R), Mod(RC), Mod(R), Invalid]
    case (0, 2) => [Del(R), Mod(C), Del(RC), Invalid]
    case (1, 0) => [Mod(RW), Mod(RWC), Mod(RW), Invalid]
    case (1, 1) => [Mod(RW), Mod(RWC), Mod(RW), Invalid]
    case (1, 2) => [Mod(W), Mod(WC), Mod(W), Invalid]
    case (2, 0) => [Mod(R), Mod(RC), Mod(R), Invalid]
    case (2, 1) => [Mod(R), Mod(RC), Mod(R), Invalid]
    case (2, 2) => [Del(RW), Mod(C), Del(RWC), Invalid]
    case _ => [Invalid, Invalid, Invalid, Invalid]
  }

  function Row2(write: nat, read: nat): (r: seq<Operation>)
    requires write < 4 && read < 4
    ensures |r| == 4
  {
    match (write, read)
    case (0, 0) => [Nothing, Mod(WC), Mod(W), Invalid]
    case (0, 1) => [Mod(RW), Mod(RWC), Mod(RW), Invalid]
    case (0, 2) => [Mod(W), Mod(WC), Mod(W), Invalid]
    case (1, 0) => [Mod(W), Mod(WC), Mod(W), Invalid]
    case (1, 1) => [Mod(RW), Mod(RWC), Mod(RW), Invalid]
    case (1, 2) => [Mod(W), Mod(WC), Mod(W), Invalid]
    case (2, 0) => [Del(W), Mod(C), Del(WC), Invalid]
    case (2, 1) => [Mod(R), Mod(RC), Mod(R), Invalid]
    case (2, 2) => [Del(RW), Mod(C), Del(RWC), Invalid]
    case _ => [Invalid, Invalid, Invalid, Invalid]
  }

  function Row3(write: nat, read: nat): (r: seq<Operation>)
    requires write < 4 && read < 4
    ensures |r| == 4
  {
    match (write, read)
    case (0, 0) => [Nothing, Mod(RWC), Mod(RW), Invalid]
    case (0, 1) => [Mod(RW), Mod(RWC), Mod(RW), Invalid]
    case (0, 2) => [Mod(W), Mod(WC), Mod(W), Invalid]
    case (1, 0) => [Mod(RW), Mod(RWC), Mod(RW), Invalid]
    case (1, 1) => [Mod(RW), Mod(RWC), Mod(RW), Invalid]
    case (1, 2) => [Mod(W), Mod(WC), Mod(W), Invalid]
    case (2, 0) => [Mod(R), Mod(RC), Mod(R), Invalid]
    case (2, 1) => [Mod(R), Mod(RC), Mod(R), Invalid]
    case (2, 2) => [Del(RW), Mod(C), Del(RWC), Invalid]
    case _ => [Invalid, Invalid, Invalid, Invalid]
  }

  function Row4(write: nat, read: nat): (r: seq<Operation>)
    requires write < 4 && read < 4
    ensures |r| == 4
  {
    match (write, read)
    case (0, 0) => [Nothing, Mod(C), Del(C), Invalid]
    case (0, 1) => [Mod(RC), Mod(RC), Mod(R), Invalid]
    case (0, 2) => [Mod(C), Mod(C), Del(RC), Invalid]
    case (1, 0) => [Mod(WC), Mod(WC), Mod(W), Invalid]
    case (1, 1) => [Mod(RWC), Mod(RWC), Mod(RW), Invalid]
    case (1, 2) => [Mod(WC), Mod(WC), Mod(W), Invalid]
    case (2, 0) => [Mod(C), Mod(C), Del(WC), Invalid]
    case (2, 1) => [Mod(RC), Mod(RC), Mod(R), Invalid]
    case (2, 2) => [Mod(C), Mod(C), Del(RWC), Invalid]
    case _ => [Invalid, Invalid, Invalid, Invalid]
  }

  function Row5(write: nat, read: nat): (r: seq<Operation>)
    requires write < 4 && read < 4
    ensures |r| == 4
  {
    match (write, read)
    case (0, 0) => [Nothing, Mod(RC), Mod(R), Invalid]
    case (0, 1) => [Mod(RC), Mod(RC), Mod(R), Invalid]
    case (0, 2) => [Mod(C), Mod(C), Del(RC), Invalid]
    case (1, 0) => [Mod(RWC), Mod(RWC), Mod(RW), Invalid]
    case (1, 1) => [Mod(RWC), Mod(RWC), Mod(RW), Invalid]
    case (1, 2) => [Mod(WC), Mod(WC), Mod(W), Invalid]
    case (2, 0) => [Mod(RC), Mod(RC), Mod(R), Invalid]
    case (2, 1) => [Mod(RC), Mod(RC), Mod(R), Invalid]
    case (2, 2) => [Mod(C), Mod(C), Del(RWC), Invalid]
    case _ => [Invalid, Invalid, Invalid, Invalid]
  }

  function Row6(write: nat, read: nat): (r: seq<Operation>)
    requires write < 4 && read < 4
    ensures |r| == 4
  {
    match (write, read)
    case (0, 0) => [Nothing, Mod(WC), Mod(W), Invalid]
    case (0, 1) => [Mod(RWC), Mod(RWC), Mod(RW), Invalid]
    case (0, 2) => [Mod(WC), Mod(WC), Mod(W), Invalid]
    case (1, 0) => [Mod(WC), Mod(WC), Mod(W), Invalid]
    case (1, 1) => [Mod(RWC), Mod(RWC), Mod(RW), Invalid]
    case (1, 2) => [Mod(WC), Mod(WC), Mod(W), Invalid]
    case (2, 0) => [Mod(C), Mod(C), Del(WC), Invalid]
    case (2, 1) => [Mod(RC), Mod(RC), Mod(R), Invalid]
    case (2, 2) => [Mod(C), Mod(C), Del(RWC), Invalid]
    case _ => [Invalid, Invalid, Invalid, Invalid]
  }

  function Row7(write: nat, read: nat): (r: seq<Operation>)
    requires write < 4 && read < 4
    ensures |r| == 4
  {
    match (write, read)
    case (0, 0) => [Nothing, Mod(RWC), Mod(RW), Invalid]
    case (0, 1) => [Mod(RWC), Mod(RWC), Mod(RW), Invalid]
    case (0, 2) => [Mod(WC), Mod(WC), Mod(W), Invalid]
    case (1, 0) => [Mod(RWC), Mod(RWC), Mod(RW), Invalid]
    case (1, 1) => [Mod(RWC), Mod(RWC), Mod(RW), Invalid]
    case (1, 2) => [Mod(WC), Mod(WC), Mod(W), Invalid]
    case (2, 0) => [Mod(RC), Mod(RC), Mod(R), Invalid]
    case (2, 1) => [Mod(RC), Mod(RC), Mod(R), Invalid]
    case (2, 2) => [Mod(C), Mod(C), Del(RWC), Invalid]
    case _ => [Invalid, Invalid, Invalid, Invalid]
  }

  /** One kind of event after a change. */
  function Applied(was: bool, change: nat): bool {
    change == EV_CHANGE_ADD || (change != EV_CHANGE_DEL && was)
  }

  /** What is to be watched after the change. */
  function After(c: EventChange): Interest {
    Interest(Applied(c.oldEvents.read, c.readChange),
             Applied(c.oldEvents.write, c.writeChange),
             Applied(c.oldEvents.close, c.closeChange))
  }

  predicate Codes(c: EventChange) {
    c.readChange <= 2 && c.writeChange <= 2 && c.closeChange <= 2
  }

  predicate TwoBit(c: EventChange) {
    c.readChange < 4 && c.writeChange < 4 && c.closeChange < 4
  }

  predicate Adds(c: EventChange) {
    c.readChange == EV_CHANGE_ADD || c.writeChange == EV_CHANGE_ADD || c.closeChange == EV_CHANGE_ADD
  }

  /** Two bits of a change are looked at. */
  function Masked(c: EventChange): EventChange {
    c.(readChange := c.readChange % 4, writeChange := c.writeChange % 4, closeChange := c.closeChange % 4)
  }

  /** The rule the table was generated from, as a formula: added and deleted at once is invalid. */
  function Rule(c: EventChange): Operation {
    if !Codes(c) then Invalid
    else if c.readChange == c.writeChange == c.closeChange == 0 then Nothing
    else if Adds(c) then if c.oldEvents == O then Add(After(c)) else Mod(After(c))
    else if After(c) == O then
      Del(Interest(c.readChange == EV_CHANGE_DEL, c.writeChange == EV_CHANGE_DEL, c.closeChange == EV_CHANGE_DEL))
    else Mod(After(c))
  }

  lemma {:induction false} IndexParts(c: EventChange)
    ensures var i := TableIndex(c);
            && i % 4 == c.closeChange % 4 && i / 4 % 4 == c.readChange % 4 && i / 16 % 4 == c.writeChange % 4
            && i / 64 == Bit(c.oldEvents.read) + 2 * Bit(c.oldEvents.write) + 4 * Bit(c.oldEvents.close)
  {
    var was := Bit(c.oldEvents.read) + 2 * Bit(c.oldEvents.write) + 4 * Bit(c.oldEvents.close);
    BaseFour(c.closeChange % 4, c.readChange % 4, c.writeChange % 4, was);
  }

  lemma {:induction false} BaseFour(a: nat, b: nat, c: nat, d: nat)
    requires a < 4 && b < 4 && c < 4
    ensures var i := a + 4 * b + 16 * c + 64 * d;
            i % 4 == a && i / 4 % 4 == b && i / 16 % 4 == c && i / 64 == d
  {
    var i := a + 4 * b + 16 * c + 64 * d;
    assert i / 4 == b + 4 * (c + 4 * d);
    assert i / 16 == c + 4 * d;
    assert i / 64 == d;
  }

  lemma {:induction false} Rule0(c: EventChange)
    requires TwoBit(c) && c.oldEvents == O
    ensures Row0(c.writeChange, c.readChange)[c.closeChange] == Rule(c)
  {
  }

  lemma {:induction false} Rule1(c: EventChange)
    requires TwoBit(c) && c.oldEvents == R
    ensures Row1(c.writeChange, c.readChange)[c.closeChange] == Rule(c)
  {
  }

  lemma {:induction false} Rule2(c: EventChange)
    requires TwoBit(c) && c.oldEvents == W
    ensures Row2(c.writeChange, c.readChange)[c.closeChange] == Rule(c)
  {
  }

  lemma {:induction false} Rule3(c: EventChange)
    requires TwoBit(c) && c.oldEvents == RW
    ensures Row3(c.writeChange, c.readChange)[c.closeChange] == Rule(c)
  {
  }

  lemma {:induction false} Rule4(c: EventChange)
    requires TwoBit(c) && c.oldEvents == C
    ensures Row4(c.writeChange, c.readChange)[c.closeChange] == Rule(c)
  {
  }

  lemma {:induction false} Rule5(c: EventChange)
    requires TwoBit(c) && c.oldEvents == RC
    ensures Row5(c.writeChange, c.readChange)[c.closeChange] == Rule(c)
  {
  }

  lemma {:induction false} Rule6(c: EventChange)
    requires TwoBit(c) && c.oldEvents == WC
    ensures Row6(c.writeChange, c.readChange)[c.closeChange] == Rule(c)
  {
  }

  lemma {:induction false} Rule7(c: EventChange)
    requires TwoBit(c) && c.oldEvents == RWC
    ensures Row7(c.writeChange, c.readChange)[c.closeChange] == Rule(c)
  {
  }

  /** All 512 entries: whatever a change says, it is looked up as the rule says. */
  lemma {:induction false} TableFollowsRule(c: EventChange)
    ensures OpAt(TableIndex(c)) == Rule(Masked(c))
  {
    hide Rule;
    IndexParts(c);
    var m := Masked(c);
    match c.oldEvents {
      case Interest(false, false, false) => Rule0(m);
      case Interest(true, false, false) => Rule1(m);
      case Interest(false, true, false) => Rule2(m);
      case Interest(true, true, false) => Rule3(m);
      case Interest(false, false, true) => Rule4(m);
      case Interest(true, false, true) => Rule5(m);
      case Interest(false, true, true) => Rule6(m);
      case Interest(true, true, true) => Rule7(m);
    }
  }
}
