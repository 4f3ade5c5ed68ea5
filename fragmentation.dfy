/**
 * The fragmentation tracker of `send` (section 5.4 of RFC 6455): the first
 * frame of a message carries Text or Binary, later frames carry Continuation,
 * and a frame with FIN set ends the message.
 */
module Fragmentation {
  import opened Framing

  /** The opcode a data message starts with: Binary when `binary` is set, else Text. */
  function MessageOpcode(binary: bool): Opcode
  {
    if binary then Binary else Text
  }

  /** One turn of the tracker: the opcode emitted and the next value of `firstFragment`. */
  datatype Turn = Turn(opcode: Opcode, firstFragment: bool)

  /** The tracker's transition on a data send with the given options. */
  function Step(firstFragment: bool, binary: bool, fin: bool): Turn
  {
    Turn(if firstFragment then MessageOpcode(binary) else Continuation, fin)
  }

  /** The options of one data send that the tracker looks at. */
  datatype DataSend = DataSend(binary: bool, fin: bool)

  /** The opcodes a run of data sends emits, starting from `firstFragment`. */
  function Opcodes(firstFragment: bool, sends: seq<DataSend>): (ops: seq<Opcode>)
    ensures |ops| == |sends|
    decreases |sends|
  {
    if sends == [] then []
    else
      var t := Step(firstFragment, sends[0].binary, sends[0].fin);
      [t.opcode] + Opcodes(t.firstFragment, sends[1..])
  }

  /** The value of `firstFragment` after a run of data sends. */
  function FinalState(firstFragment: bool, sends: seq<DataSend>): bool
    decreases |sends|
  {
    if sends == [] then firstFragment
    else FinalState(Step(firstFragment, sends[0].binary, sends[0].fin).firstFragment, sends[1..])
  }

  /**
   * A frame carries Continuation exactly when the frame before it (or, for the
   * first, the starting state) left a message open; otherwise it carries the
   * opcode its own `binary` option asks for.
   */
  lemma {:induction false} ContinuationIffMessageOpen(firstFragment: bool, sends: seq<DataSend>, i: nat)
    requires i < |sends|
    ensures Opcodes(firstFragment, sends)[i] == Continuation
      <==> (if i == 0 then !firstFragment else !sends[i - 1].fin)
    ensures Opcodes(firstFragment, sends)[i] != Continuation
      ==> Opcodes(firstFragment, sends)[i] == MessageOpcode(sends[i].binary)
    decreases i
  {
    if i > 0 {
      var t := Step(firstFragment, sends[0].binary, sends[0].fin);
      ContinuationIffMessageOpen(t.firstFragment, sends[1..], i - 1);
      assert sends[1..][i - 1] == sends[i];
      if i > 1 {
        assert sends[1..][i - 2] == sends[i - 1];
      }
    }
  }

  /** After any non-empty run, `firstFragment` equals the FIN flag of the last send. */
  lemma {:induction false} FinalStateIsLastFin(firstFragment: bool, sends: seq<DataSend>)
    requires sends != []
    ensures FinalState(firstFragment, sends) == sends[|sends| - 1].fin
    decreases |sends|
  {
    if |sends| > 1 {
      FinalStateIsLastFin(sends[0].fin, sends[1..]);
    }
  }

  /**
   * A three-fragment message on a fresh sender emits the data opcode, then two
   * Continuations, and the send after it opens a new message.
   */
  lemma ThreeFragmentMessage(binary: bool, next: DataSend)
    ensures Opcodes(true, [DataSend(binary, false), DataSend(binary, false), DataSend(binary, true), next])
      == [MessageOpcode(binary), Continuation, Continuation, MessageOpcode(next.binary)]
    ensures FinalState(true, [DataSend(binary, false), DataSend(binary, false), DataSend(binary, true)])
  {
    var sends := [DataSend(binary, false), DataSend(binary, false), DataSend(binary, true), next];
    var ops := Opcodes(true, sends);
    ContinuationIffMessageOpen(true, sends, 0);
    ContinuationIffMessageOpen(true, sends, 1);
    ContinuationIffMessageOpen(true, sends, 2);
    ContinuationIffMessageOpen(true, sends, 3);
    assert ops == [ops[0], ops[1], ops[2], ops[3]];
    var message := [DataSend(binary, false), DataSend(binary, false), DataSend(binary, true)];
    FinalStateIsLastFin(true, message);
  }
}
