/**
 * The TCP connection states of section 3.2 of RFC 793 as the kernel numbers
 * them in `sk_state`, the one-hot `TCPF_*` masks used to test a state against
 * a set of states, and the state/action packing constants.
 */
module TcpStates {
  import opened Kernel

  datatype TcpState =
    | Established
    | SynSent
    | SynRecv
    | FinWait1
    | FinWait2
    | TimeWait
    | Close
    | CloseWait
    | LastAck
    | Listen
    | Closing

  /** One past the last state number. */
  const TCP_MAX_STATES: nat := 12

  /** The bits of a state-table entry that hold the state itself. */
  const TCP_STATE_MASK: bv32 := 0xF

  /** The action bit packed next to a state: "send a FIN". */
  const TCP_ACTION_FIN: bv32 := 1 << 7

  /** The states in declaration order, as the enum lists them. */
  const ALL_STATES: seq<TcpState> :=
    [Established, SynSent, SynRecv, FinWait1, FinWait2, TimeWait,
     Close, CloseWait, LastAck, Listen, Closing]

  /** The value the enum gives a state (`TCP_ESTABLISHED` = 1, ...). */
  function Number(s: TcpState): (n: nat)
    ensures 1 <= n < TCP_MAX_STATES
  {
    match s
    case Established => 1
    case SynSent => 2
    case SynRecv => 3
    case FinWait1 => 4
    case FinWait2 => 5
    case TimeWait => 6
    case Close => 7
    case CloseWait => 8
    case LastAck => 9
    case Listen => 10
    case Closing => 11
  }

  /**
   * The enum starts at 1 and counts up by one per state, every state is
   * listed, and `TCP_MAX_STATES` is the value after the last one.
   */
  lemma EnumIsConsecutive()
    ensures |ALL_STATES| + 1 == TCP_MAX_STATES
    ensures forall i :: 0 <= i < |ALL_STATES| ==> Number(ALL_STATES[i]) == i + 1
    ensures forall s: TcpState :: s in ALL_STATES
  {
    forall s: TcpState ensures s in ALL_STATES {
      match s
      case Established => assert ALL_STATES[0] == s;
      case SynSent => assert ALL_STATES[1] == s;
      case SynRecv => assert ALL_STATES[2] == s;
      case FinWait1 => assert ALL_STATES[3] == s;
      case FinWait2 => assert ALL_STATES[4] == s;
      case TimeWait => assert ALL_STATES[5] == s;
      case Close => assert ALL_STATES[6] == s;
      case CloseWait => assert ALL_STATES[7] == s;
      case LastAck => assert ALL_STATES[8] == s;
      case Listen => assert ALL_STATES[9] == s;
      case Closing => assert ALL_STATES[10] == s;
    }
  }

  /** Decoding a stored `sk_state` value; values outside the enum decode to None. */
  function FromNumber(n: nat): (r: Option<TcpState>)
    ensures r.Some? <==> 1 <= n < TCP_MAX_STATES
    ensures r.Some? ==> Number(r.value) == n
  {
    if 1 <= n < TCP_MAX_STATES then Some(ALL_STATES[n - 1]) else None
  }

  /** Encoding then decoding a state gives the state back. */
  lemma FromNumberRoundTrip(s: TcpState)
    ensures FromNumber(Number(s)) == Some(s)
  {
    EnumIsConsecutive();
  }

  /** The `TCPF_*` constant of a state, as the header spells it out. */
  function Flag(s: TcpState): (f: bv32)
    ensures f == (1 as bv32) << Number(s)
  {
    match s
    case Established => 0x2
    case SynSent => 0x4
    case SynRecv => 0x8
    case FinWait1 => 0x10
    case FinWait2 => 0x20
    case TimeWait => 0x40
    case Close => 0x80
    case CloseWait => 0x100
    case LastAck => 0x200
    case Listen => 0x400
    case Closing => 0x800
  }

  /** Distinct states have disjoint masks; each mask is a single bit. */
  lemma FlagsDisjoint(a: TcpState, b: TcpState)
    ensures a != b ==> Flag(a) & Flag(b) == 0
    ensures Flag(a) != 0 && Flag(a) & (Flag(a) - 1) == 0
  {
    match a
    case Established =>
    case SynSent =>
    case SynRecv =>
    case FinWait1 =>
    case FinWait2 =>
    case TimeWait =>
    case Close =>
    case CloseWait =>
    case LastAck =>
    case Listen =>
    case Closing =>
  }

  /** The membership test `(1 << s) & (TCPF_A | TCPF_B)`, as callers write it. */
  predicate InStates(s: TcpState, a: TcpState, b: TcpState)
  {
    ((1 as bv32) << Number(s)) & (Flag(a) | Flag(b)) != 0
  }

  /** The mask test is non-zero exactly when the state is one of the two. */
  lemma InStatesIff(s: TcpState, a: TcpState, b: TcpState)
    ensures InStates(s, a, b) <==> s == a || s == b
  {
    FlagsDisjoint(s, a);
    FlagsDisjoint(s, b);
  }

  /**
   * A state number fits under `TCP_STATE_MASK`, and packing it with
   * `TCP_ACTION_FIN` (which lies outside the mask) can be undone by masking.
   */
  lemma StateMaskUnpacks(s: TcpState)
    ensures (Number(s) as bv32) & TCP_STATE_MASK == Number(s) as bv32
    ensures TCP_ACTION_FIN & TCP_STATE_MASK == 0
    ensures ((Number(s) as bv32) | TCP_ACTION_FIN) & TCP_STATE_MASK == Number(s) as bv32
  {
    match s
    case Established =>
    case SynSent =>
    case SynRecv =>
    case FinWait1 =>
    case FinWait2 =>
    case TimeWait =>
    case Close =>
    case CloseWait =>
    case LastAck =>
    case Listen =>
    case Closing =>
  }
}
