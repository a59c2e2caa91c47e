/** YubiKey::transmit: the Lc fix-up, the "more data available" continuation loop
    over a PC/SC card, and the mapping of status words (SW1-SW2, section 5.1.3 of
    ISO/IEC 7816-4:2005) to outcomes. The card is a scripted transport: it answers
    each command with the next reply of its script, whatever the command is. */
module Apdu {
  import opened Bytes
  import opened Errors

  /** The SEND REMAINING instruction (CLA 00, INS A5, P1 00, P2 00, no body). */
  const SEND_REMAINING: seq<byte> := [0x00, 0xA5, 0x00, 0x00]

  /** The PC/SC code SCARD_W_REMOVED_CARD, which the scripted card reports once its
      script is used up. */
  const REMOVED_CARD: uint32 := 0x8010_0069

  // ---------------------------------------------------------------------------
  // Status words

  datatype Status = Complete | MoreData | Failure(error: Error)

  /** The `match code` of transmit: 0x9000 ends the exchange, 0x61XX asks for the
      next frame, five codes name device errors and every other code is unknown. */
  function StatusOf(code: uint16): (s: Status)
    ensures s == Complete <==> code == 0x9000
    ensures s == MoreData <==> 0x6100 <= code <= 0x61FF
    ensures s.Failure? ==> DeviceError(s.error)
    ensures s.Failure? && s.error.UnknownCode? ==> s.error.code == code
  {
    if code == 0x9000 then Complete
    else if 0x6100 <= code <= 0x61FF then MoreData
    else if code == 0x6A84 then Failure(NoSpace)
    else if code == 0x6984 then Failure(NoSuchObject)
    else if code == 0x6982 then Failure(AuthRequired)
    else if code == 0x6A80 then Failure(WrongSyntax)
    else if code == 0x6581 then Failure(GenericError)
    else Failure(UnknownCode(code))
  }

  /** The errors a status word can stand for. */
  predicate DeviceError(e: Error) {
    e.NoSpace? || e.NoSuchObject? || e.AuthRequired? || e.WrongSyntax? ||
    e.GenericError? || e.UnknownCode?
  }

  /** The status word each named device error is reported with. */
  function StatusWordOf(e: Error): Option<uint16> {
    match e
    case NoSpace => Some(0x6A84)
    case NoSuchObject => Some(0x6984)
    case AuthRequired => Some(0x6982)
    case WrongSyntax => Some(0x6A80)
    case GenericError => Some(0x6581)
    case _ => None
  }

  /** Each named error has exactly one status word: StatusOf and StatusWordOf are
      inverse on them, and every other non-success, non-continuation code is
      UnknownCode carrying the code itself. */
  lemma StatusTable(code: uint16)
    ensures StatusOf(code).Failure? && StatusWordOf(StatusOf(code).error).Some? ==>
      StatusWordOf(StatusOf(code).error) == Some(code)
    ensures forall e :: StatusWordOf(e) == Some(code) ==> StatusOf(code) == Failure(e)
    ensures StatusOf(code).Failure? && StatusWordOf(StatusOf(code).error).None? ==>
      StatusOf(code) == Failure(UnknownCode(code))
  {
  }

  /** u16::from_le_bytes([last, second to last]): SW1 is the high byte. */
  function StatusWord(sw1: byte, sw2: byte): (code: uint16)
    ensures code / 256 == sw1 && code % 256 == sw2
  {
    sw2 + 256 * sw1
  }

  // ---------------------------------------------------------------------------
  // The scripted card

  /** One answer of the card: a frame (payload followed by SW1 SW2), or a PC/SC
      failure code. */
  datatype Reply = Frame(bytes: seq<byte>) | Failed(code: uint32)

  /** What the card answers to its pos-th command. */
  function Answer(script: seq<Reply>, pos: nat): (r: Result<seq<byte>>)
    ensures r.Ok? ==> pos < |script|
  {
    if pos >= |script| then Err(Pcsc(REMOVED_CARD))
    else match script[pos]
      case Frame(b) => Ok(b)
      case Failed(c) => Err(Pcsc(c))
  }

  /** Card::transmit over a fixed script; `sent` records every command it was given. */
  class Card {
    const script: seq<Reply>
    var pos: nat
    var sent: seq<seq<byte>>

    constructor (script: seq<Reply>)
      ensures this.script == script && pos == 0 && sent == []
    {
      this.script := script;
      pos := 0;
      sent := [];
    }

    method Transmit(command: seq<byte>) returns (r: Result<seq<byte>>)
      modifies this
      ensures r == Answer(script, old(pos))
      ensures pos == if old(pos) < |script| then old(pos) + 1 else old(pos)
      ensures sent == old(sent) + [command]
    {
      r := Answer(script, pos);
      if pos < |script| {
        pos := pos + 1;
      }
      sent := sent + [command];
    }
  }

  // ---------------------------------------------------------------------------
  // The exchange, as the code is written and as corrected

  /** How the loop ends. `Panicked` is the slice `&buf[mid..]` with mid past the end
      of the buffer, which the Rust code does not guard. */
  datatype Outcome = Returned(result: Result<seq<byte>>) | Panicked

  /** An exchange: how it ended, the buffer it left, the commands it sent and the
      script position it reached. */
  datatype Trace = Trace(outcome: Outcome, buf: seq<byte>, sent: seq<seq<byte>>, pos: nat)

  /** The frame one turn of the loop sends: the caller's command while the buffer
      holds exactly the command (`mid == len`), SEND REMAINING otherwise. */
  function Command(mid: nat, buf: seq<byte>): (c: seq<byte>)
    ensures mid == |buf| ==> c == buf
    ensures mid != |buf| ==> c == SEND_REMAINING
  {
    if mid == |buf| then buf[..mid] else SEND_REMAINING
  }

  /** How one turn of the loop ends: the exchange stops with a trace of this turn,
      or it goes on from the buffer left after popping a 0x61XX status word. */
  datatype Step = Stop(last: Trace) | Again(rest: seq<byte>)

  /** One turn of the loop of transmit, from a buffer whose first `mid` bytes were
      the command and the card at script position `pos`: send a command, append the
      reply frame, pop two status bytes off the end of the whole buffer and act on
      the status word. With `guarded` false this is the code as written; with
      `guarded` true it is the corrected loop, which first rejects a frame too
      short to carry a status word with InsufficientData. */
  function Turn(guarded: bool, mid: nat, buf: seq<byte>, script: seq<Reply>, pos: nat): Step {
    var command := Command(mid, buf);
    match Answer(script, pos)
    case Err(e) => Stop(Trace(Returned(Err(e)), buf, [command], if pos < |script| then pos + 1 else pos))
    case Ok(frame) =>
      if guarded && |frame| < 2 then Stop(Trace(Returned(Err(InsufficientData)), buf + frame, [command], pos + 1))
      else Received(mid, buf + frame, command, pos + 1)
  }

  /** The rest of a turn once the reply frame is in the buffer `b`: the two status
      pops, which empty a buffer of fewer than two bytes and fail. */
  function Received(mid: nat, b: seq<byte>, command: seq<byte>, pos: nat): Step {
    if |b| < 2 then Stop(Trace(Returned(Err(InsufficientData)), [], [command], pos))
    else Act(mid, b[..|b| - 2], StatusWord(b[|b| - 2], b[|b| - 1]), command, pos)
  }

  /** The match on the status word, with `rest` the buffer after the pops. */
  function Act(mid: nat, rest: seq<byte>, code: uint16, command: seq<byte>, pos: nat): Step {
    match StatusOf(code)
    case Complete =>
      if mid <= |rest| then Stop(Trace(Returned(Ok(rest[mid..])), rest, [command], pos))
      else Stop(Trace(Panicked, rest, [command], pos))
    case MoreData => Again(rest)
    case Failure(e) => Stop(Trace(Returned(Err(e)), rest, [command], pos))
  }

  /** The whole loop: turns until one stops. A turn that goes on has consumed a
      frame of the script, so the loop ends with the script at the latest. */
  function Run(guarded: bool, mid: nat, buf: seq<byte>, script: seq<Reply>, pos: nat): (t: Trace)
    decreases |script| - pos
  {
    match Turn(guarded, mid, buf, script, pos)
    case Stop(t) => t
    case Again(rest) =>
      assert pos < |script|;
      var t := Run(guarded, mid, rest, script, pos + 1);
      Trace(t.outcome, t.buf, [Command(mid, buf)] + t.sent, t.pos)
  }

  /** What every exchange guarantees, however the script goes: the first command is
      the one the buffer held; as written, InsufficientData leaves an empty buffer
      (it held fewer than two bytes, command included); a success returns exactly
      the buffer past the command; the unguarded slice is reached only when the
      pops ate into the command; and the errors that come out are device, transport
      or InsufficientData errors, never a decoding error. */
  lemma {:induction false} RunEnds(guarded: bool, mid: nat, buf: seq<byte>, script: seq<Reply>, pos: nat)
    decreases |script| - pos
    ensures var t := Run(guarded, mid, buf, script, pos);
      && pos <= t.pos
      && |t.sent| >= 1 && t.sent[0] == Command(mid, buf)
      && (!guarded && t.outcome == Returned(Err(InsufficientData)) ==> t.buf == [])
      && (t.outcome == Panicked ==> |t.buf| < mid)
      && (t.outcome.Returned? && t.outcome.result.Ok? ==>
            mid <= |t.buf| && t.outcome.result.value == t.buf[mid..])
      && (t.outcome.Returned? && t.outcome.result.Err? ==>
            var e := t.outcome.result.error;
            DeviceError(e) || e.Pcsc? || e == InsufficientData)
  {
    match Turn(guarded, mid, buf, script, pos)
    case Stop(_) =>
    case Again(rest) => RunEnds(guarded, mid, rest, script, pos + 1);
  }

  /** What the corrected loop adds: from a buffer that holds the command it never
      panics, and the buffer it leaves still starts with everything it was given,
      so no status pop ever reaches into the command or into an earlier payload. */
  lemma {:induction false} GuardedRunEnds(mid: nat, buf: seq<byte>, script: seq<Reply>, pos: nat)
    requires mid <= |buf|
    decreases |script| - pos
    ensures var t := Run(true, mid, buf, script, pos);
      t.outcome.Returned? && buf <= t.buf
  {
    match Turn(true, mid, buf, script, pos)
    case Stop(_) =>
      if Answer(script, pos).Ok? {
        var b := buf + Answer(script, pos).value;
        assert |b| - |buf| < 2 || buf <= b[..|b| - 2];
      }
    case Again(rest) =>
      var b := buf + Answer(script, pos).value;
      assert rest == b[..|b| - 2] && buf <= rest;
      GuardedRunEnds(mid, rest, script, pos + 1);
  }

  /** The corrected loop turns a frame of fewer than two bytes into InsufficientData
      at once, whatever the buffer holds. */
  lemma GuardedShortFrame(mid: nat, buf: seq<byte>, script: seq<Reply>, pos: nat)
    requires Answer(script, pos).Ok? && |Answer(script, pos).value| < 2
    ensures var t := Run(true, mid, buf, script, pos);
      t.outcome == Returned(Err(InsufficientData)) && t.buf == buf + Answer(script, pos).value &&
      t.pos == pos + 1 && t.sent == [Command(mid, buf)]
  {
  }

  /** The Lc fix-up: a command of at least five bytes gets (length - 5) mod 256 in
      byte 4; nothing else changes, and shorter commands are left alone. */
  function FixLc(cmd: seq<byte>): (c: seq<byte>)
    ensures |c| == |cmd|
    ensures forall i | 0 <= i < |cmd| && i != 4 :: c[i] == cmd[i]
    ensures |cmd| >= 5 ==> c[4] == (|cmd| - 5) % 256
    ensures |cmd| < 5 ==> c == cmd
  {
    if |cmd| >= 5 then cmd[4 := (|cmd| - 5) % 256] else cmd
  }

  /** A whole transmit of `cmd` against the card at position `pos`: as written when
      `guarded` is false, as corrected when it is true. */
  function Exchange(guarded: bool, cmd: seq<byte>, script: seq<Reply>, pos: nat): Trace {
    Run(guarded, |cmd|, FixLc(cmd), script, pos)
  }

  /** The corrected transmit always returns, keeps the fixed-up command at the front
      of the buffer and, on success, returns exactly what lies past it. */
  lemma GuardedExchange(cmd: seq<byte>, script: seq<Reply>, pos: nat)
    ensures var t := Exchange(true, cmd, script, pos);
      && t.outcome.Returned? && |cmd| <= |t.buf| && t.buf[..|cmd|] == FixLc(cmd)
      && (t.outcome.result.Ok? ==> t.outcome.result.value == t.buf[|cmd|..])
  {
    RunEnds(true, |cmd|, FixLc(cmd), script, pos);
    GuardedRunEnds(|cmd|, FixLc(cmd), script, pos);
  }

  // ---------------------------------------------------------------------------
  // Chained replies

  /** A reply frame carrying `payload` and then the status word `code` (SW1 SW2). */
  function WithStatus(payload: seq<byte>, code: uint16): Reply {
    Frame(payload + [code / 256, code % 256])
  }

  /** The status word 0x61XX with XX = low. */
  function Continuation(low: byte): uint16 {
    0x6100 + low as int
  }

  /** The payloads of several frames, in order. */
  function Concat(ps: seq<seq<byte>>): seq<byte> {
    if ps == [] then [] else ps[0] + Concat(ps[1..])
  }

  lemma StatusWordSplit(code: uint16)
    ensures StatusWord(code / 256, code % 256) == code
  {
  }

  /** One turn that reads a frame carrying its payload and a status word; such a
      frame is never short, so the guard makes no difference. */
  lemma TurnFrame(guarded: bool, mid: nat, buf: seq<byte>, script: seq<Reply>, pos: nat, p: seq<byte>, code: uint16)
    requires mid <= |buf| && pos < |script| && script[pos] == WithStatus(p, code)
    ensures Turn(guarded, mid, buf, script, pos) ==
      match StatusOf(code)
      case Complete => Stop(Trace(Returned(Ok(buf[mid..] + p)), buf + p, [Command(mid, buf)], pos + 1))
      case MoreData => Again(buf + p)
      case Failure(e) => Stop(Trace(Returned(Err(e)), buf + p, [Command(mid, buf)], pos + 1))
  {
    StatusWordSplit(code);
    var command := Command(mid, buf);
    var frame := p + [code / 256, code % 256];
    var b := buf + frame;
    assert Answer(script, pos) == Ok(frame);
    assert Turn(guarded, mid, buf, script, pos) == Received(mid, b, command, pos + 1);
    assert b[..|b| - 2] == buf + p;
    assert Turn(guarded, mid, buf, script, pos) == Act(mid, buf + p, code, command, pos + 1);
    assert (buf + p)[mid..] == buf[mid..] + p;
  }

  /** The script positions pos.. hold frames with the given payloads, 0x61XX status
      words with XX from `lows`, and then `last`. */
  ghost predicate Chained(script: seq<Reply>, pos: nat, payloads: seq<seq<byte>>, lows: seq<byte>, last: uint16) {
    && |payloads| == |lows| + 1
    && pos + |payloads| <= |script|
    && (forall i | 0 <= i < |lows| :: script[pos + i] == WithStatus(payloads[i], Continuation(lows[i])))
    && script[pos + |lows|] == WithStatus(payloads[|lows|], last)
  }

  lemma ChainedTail(script: seq<Reply>, pos: nat, payloads: seq<seq<byte>>, lows: seq<byte>, last: uint16)
    requires Chained(script, pos, payloads, lows, last) && lows != []
    ensures script[pos] == WithStatus(payloads[0], Continuation(lows[0]))
    ensures Chained(script, pos + 1, payloads[1..], lows[1..], last)
  {
    var rest := payloads[1..];
    forall i | 0 <= i < |lows| - 1
      ensures script[pos + 1 + i] == WithStatus(rest[i], Continuation(lows[1..][i]))
    {
      assert script[pos + (i + 1)] == WithStatus(payloads[i + 1], Continuation(lows[i + 1]));
    }
  }

  /** The continuation loop: when the script holds frames whose status words are
      0x61XX followed by one frame with a terminal status word, the exchange reads
      exactly those frames; on 0x9000 it returns every payload concatenated in order
      (after whatever lay past the command), on an error status it returns that
      error; and the buffer ends as the old buffer followed by all payloads. */
  lemma {:induction false} RunChained(guarded: bool, mid: nat, buf: seq<byte>, script: seq<Reply>, pos: nat,
                                      payloads: seq<seq<byte>>, lows: seq<byte>, last: uint16)
    requires mid <= |buf|
    requires Chained(script, pos, payloads, lows, last)
    requires StatusOf(last) != MoreData
    ensures var t := Run(guarded, mid, buf, script, pos);
      && t.pos == pos + |payloads|
      && t.buf == buf + Concat(payloads)
      && t.outcome == Returned(if last == 0x9000 then Ok(buf[mid..] + Concat(payloads))
                               else Err(StatusOf(last).error))
      && |t.sent| == |payloads|
    decreases |lows|
  {
    var p := payloads[0];
    if lows == [] {
      TurnFrame(guarded, mid, buf, script, pos, p, last);
      assert Concat(payloads) == p;
    } else {
      ChainedTail(script, pos, payloads, lows, last);
      TurnFrame(guarded, mid, buf, script, pos, p, Continuation(lows[0]));
      RunChained(guarded, mid, buf + p, script, pos + 1, payloads[1..], lows[1..], last);
      ChainedStep(guarded, mid, buf, script, pos, payloads, last);
    }
  }

  /** The inductive step of RunChained: a turn that appends the first payload and
      goes on, followed by a run over the remaining payloads. */
  lemma ChainedStep(guarded: bool, mid: nat, buf: seq<byte>, script: seq<Reply>, pos: nat,
                    payloads: seq<seq<byte>>, last: uint16)
    requires mid <= |buf| && |payloads| >= 1 && StatusOf(last) != MoreData
    requires Turn(guarded, mid, buf, script, pos) == Again(buf + payloads[0])
    requires var t := Run(guarded, mid, buf + payloads[0], script, pos + 1);
      && t.pos == pos + 1 + |payloads[1..]|
      && t.buf == buf + payloads[0] + Concat(payloads[1..])
      && t.outcome == Returned(if last == 0x9000 then Ok((buf + payloads[0])[mid..] + Concat(payloads[1..]))
                               else Err(StatusOf(last).error))
      && |t.sent| == |payloads[1..]|
    ensures var t := Run(guarded, mid, buf, script, pos);
      && t.pos == pos + |payloads|
      && t.buf == buf + Concat(payloads)
      && t.outcome == Returned(if last == 0x9000 then Ok(buf[mid..] + Concat(payloads))
                               else Err(StatusOf(last).error))
      && |t.sent| == |payloads|
  {
    var p := payloads[0];
    var rest := payloads[1..];
    RunAgain(guarded, mid, buf, script, pos, buf + p);
    assert Concat(payloads) == p + Concat(rest);
    AppendAssoc(buf, p, Concat(rest));
    AppendAssoc(buf[mid..], p, Concat(rest));
    assert (buf + p)[mid..] == buf[mid..] + p;
  }

  /** The commands the continuation loop sends over such a script: at each turn, the
      command while nothing has accumulated past it, SEND REMAINING otherwise. */
  lemma {:induction false} RunChainedSends(guarded: bool, mid: nat, buf: seq<byte>, script: seq<Reply>, pos: nat,
                                           payloads: seq<seq<byte>>, lows: seq<byte>, last: uint16, i: nat)
    requires mid <= |buf|
    requires Chained(script, pos, payloads, lows, last)
    requires StatusOf(last) != MoreData
    requires i < |payloads|
    ensures |Run(guarded, mid, buf, script, pos).sent| == |payloads|
    ensures Run(guarded, mid, buf, script, pos).sent[i] == Command(mid, buf + Concat(payloads[..i]))
    decreases |lows|
  {
    RunChained(guarded, mid, buf, script, pos, payloads, lows, last);
    var p := payloads[0];
    if lows == [] {
      TurnFrame(guarded, mid, buf, script, pos, p, last);
      assert payloads[..0] == [];
    } else {
      ChainedTail(script, pos, payloads, lows, last);
      TurnFrame(guarded, mid, buf, script, pos, p, Continuation(lows[0]));
      RunAgain(guarded, mid, buf, script, pos, buf + p);
      if i == 0 {
        assert payloads[..0] == [];
      } else {
        var rest := payloads[1..];
        RunChainedSends(guarded, mid, buf + p, script, pos + 1, rest, lows[1..], last, i - 1);
        assert payloads[..i][1..] == rest[..i - 1];
        assert Concat(payloads[..i]) == p + Concat(rest[..i - 1]);
        AppendAssoc(buf, p, Concat(rest[..i - 1]));
      }
    }
  }

  /** The same from the caller's side: transmitting `cmd` against such a script
      returns the concatenated payloads (or the final error) and leaves the command
      in front of the buffer. */
  lemma ExchangeChained(guarded: bool, cmd: seq<byte>, script: seq<Reply>, pos: nat,
                        payloads: seq<seq<byte>>, lows: seq<byte>, last: uint16)
    requires Chained(script, pos, payloads, lows, last)
    requires StatusOf(last) != MoreData
    ensures var t := Exchange(guarded, cmd, script, pos);
      && t.outcome == Returned(if last == 0x9000 then Ok(Concat(payloads)) else Err(StatusOf(last).error))
      && t.buf == FixLc(cmd) + Concat(payloads)
      && t.buf[..|cmd|] == FixLc(cmd)
  {
    var buf := FixLc(cmd);
    RunChained(guarded, |cmd|, buf, script, pos, payloads, lows, last);
    assert buf[|cmd|..] + Concat(payloads) == Concat(payloads);
    assert (buf + Concat(payloads))[..|cmd|] == buf;
  }

  /** Which commands such an exchange sends: the fixed-up command first, and then
      SEND REMAINING once some payload has arrived; while nothing has arrived the
      code sends the command again. */
  lemma ExchangeChainedSends(guarded: bool, cmd: seq<byte>, script: seq<Reply>, pos: nat,
                             payloads: seq<seq<byte>>, lows: seq<byte>, last: uint16, i: nat)
    requires Chained(script, pos, payloads, lows, last)
    requires StatusOf(last) != MoreData
    requires i < |payloads|
    ensures |Exchange(guarded, cmd, script, pos).sent| == |payloads|
    ensures Exchange(guarded, cmd, script, pos).sent[i] ==
      if Concat(payloads[..i]) == [] then FixLc(cmd) else SEND_REMAINING
  {
    var buf := FixLc(cmd);
    RunChainedSends(guarded, |cmd|, buf, script, pos, payloads, lows, last, i);
    if Concat(payloads[..i]) == [] {
      assert buf + Concat(payloads[..i]) == buf;
    }
  }

  // ---------------------------------------------------------------------------
  // The corrected transmit, on the caller's buffer

  /** YubiKey::transmit: the Lc fix-up, then the loop, with the frame-length check
      of the corrected exchange. It always returns, and the buffer it leaves starts
      with the fixed-up command. */
  method Transmit(card: Card, buf: Buffer) returns (r: Result<seq<byte>>)
    modifies card, buf
    ensures var t := Exchange(true, old(buf.data), card.script, old(card.pos));
      t.outcome == Returned(r) && buf.data == t.buf && card.pos == t.pos &&
      card.sent == old(card.sent) + t.sent
    ensures |buf.data| >= |old(buf.data)| && buf.data[..|old(buf.data)|] == FixLc(old(buf.data))
    ensures r.Ok? ==> r.value == buf.data[|old(buf.data)|..]
  {
    if |buf.data| >= 5 {
      buf.Set(4, (|buf.data| - 5) % 256);
    }
    assert buf.data == FixLc(old(buf.data));
    GuardedExchange(old(buf.data), card.script, card.pos);
    r := Loop(card, buf, |buf.data|);
  }

  /** The loop of transmit, with the first `mid` bytes of the buffer the command:
      turns until one stops, as the corrected Run describes. */
  method Loop(card: Card, buf: Buffer, mid: nat) returns (r: Result<seq<byte>>)
    requires mid <= |buf.data|
    modifies card, buf
    ensures var t := Run(true, mid, old(buf.data), card.script, old(card.pos));
      t.outcome == Returned(r) && buf.data == t.buf && card.pos == t.pos &&
      card.sent == old(card.sent) + t.sent
  {
    ghost var total := Run(true, mid, buf.data, card.script, card.pos);
    ghost var sent0 := card.sent;
    while true
      invariant mid <= |buf.data|
      invariant Resumes(total, sent0, mid, buf.data, card.script, card.pos, card.sent)
      decreases |card.script| - card.pos
    {
      ghost var was, at, log := buf.data, card.pos, card.sent;
      var done;
      done, r := TurnOnce(card, buf, mid);
      if done {
        ResumesStop(total, sent0, mid, was, card.script, at, log);
        return;
      }
      ResumesAgain(total, sent0, mid, was, card.script, at, log, buf.data);
    }
  }

  /** A turn that stops ends the exchange the invariant tracks. */
  lemma ResumesStop(total: Trace, sent0: seq<seq<byte>>, mid: nat, buf: seq<byte>,
                    script: seq<Reply>, pos: nat, sent: seq<seq<byte>>)
    requires Resumes(total, sent0, mid, buf, script, pos, sent)
    requires Turn(true, mid, buf, script, pos).Stop?
    ensures var t := Turn(true, mid, buf, script, pos).last;
      t.outcome == total.outcome && t.buf == total.buf && t.pos == total.pos &&
      sent + [Command(mid, buf)] == sent0 + total.sent
  {
  }

  /** A turn that goes on keeps the invariant, one command further. */
  lemma ResumesAgain(total: Trace, sent0: seq<seq<byte>>, mid: nat, buf: seq<byte>,
                     script: seq<Reply>, pos: nat, sent: seq<seq<byte>>, rest: seq<byte>)
    requires Resumes(total, sent0, mid, buf, script, pos, sent)
    requires Turn(true, mid, buf, script, pos) == Again(rest)
    ensures Resumes(total, sent0, mid, rest, script, pos + 1, sent + [Command(mid, buf)])
  {
    RunAgain(true, mid, buf, script, pos, rest);
    AppendAssoc(sent, [Command(mid, buf)], Run(true, mid, rest, script, pos + 1).sent);
  }

  /** A turn that goes on hands the rest of the exchange to the next turn. */
  lemma RunAgain(guarded: bool, mid: nat, buf: seq<byte>, script: seq<Reply>, pos: nat, rest: seq<byte>)
    requires Turn(guarded, mid, buf, script, pos) == Again(rest)
    ensures pos < |script|
    ensures var t := Run(guarded, mid, rest, script, pos + 1);
      Run(guarded, mid, buf, script, pos) == Trace(t.outcome, t.buf, [Command(mid, buf)] + t.sent, t.pos)
  {
  }

  lemma AppendAssoc<T>(a: seq<T>, b: seq<T>, c: seq<T>)
    ensures (a + b) + c == a + (b + c)
  {
  }

  /** The loop invariant of Transmit: running the rest of the corrected loop from the
      current buffer, script position and log gives the same exchange as running it
      from the start. */
  ghost predicate Resumes(total: Trace, sent0: seq<seq<byte>>, mid: nat, buf: seq<byte>,
                          script: seq<Reply>, pos: nat, sent: seq<seq<byte>>)
  {
    var t := Run(true, mid, buf, script, pos);
    t.outcome == total.outcome && t.buf == total.buf && t.pos == total.pos &&
    sent + t.sent == sent0 + total.sent
  }

  /** The body of the corrected loop of transmit. `done` says the loop breaks out
      with `r`. */
  method TurnOnce(card: Card, buf: Buffer, mid: nat) returns (done: bool, r: Result<seq<byte>>)
    requires mid <= |buf.data|
    modifies card, buf
    ensures card.sent == old(card.sent) + [Command(mid, old(buf.data))]
    ensures old(buf.data) <= buf.data
    ensures done <==> Turn(true, mid, old(buf.data), card.script, old(card.pos)).Stop?
    ensures done ==> var t := Turn(true, mid, old(buf.data), card.script, old(card.pos)).last;
      t.outcome == Returned(r) && buf.data == t.buf && card.pos == t.pos
    ensures !done ==>
      Turn(true, mid, old(buf.data), card.script, old(card.pos)) == Again(buf.data) &&
      card.pos == old(card.pos) + 1
  {
    ghost var was := buf.data;
    var len := |buf.data|;
    var command := if mid == len then buf.data[..mid] else SEND_REMAINING;
    var response := card.Transmit(command);
    if response.Err? {
      return true, Err(response.error);
    }
    ghost var b := was + response.value;
    buf.Extend(response.value);
    if |response.value| < 2 {
      // the check the Rust code lacks: without it the pops reach into the command
      return true, Err(InsufficientData);
    }
    var sw2 := buf.Pop();
    var sw1 := buf.Pop();
    assert sw2.value == b[|b| - 1] && sw1.value == b[|b| - 2];
    assert buf.data == b[..|b| - 2];
    var code := StatusWord(sw1.value, sw2.value);
    assert Turn(true, mid, was, card.script, old(card.pos)) == Act(mid, buf.data, code, command, old(card.pos) + 1);
    match StatusOf(code)
    case Complete =>
      return true, Ok(buf.data[mid..]);
    case MoreData =>
      return false, Ok([]);
    case Failure(e) =>
      return true, Err(e);
  }
}
