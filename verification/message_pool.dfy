/** The command ring of the audio decoder (amadec/adec-message.c): twelve slots, and a send to a full
    ring frees the oldest command. A command is known by its address. */
module MessagePool {
  import opened Wrappers

  const MESSAGE_NUM_MAX := 12

  type Cmd = nat

  datatype Op = Send(cmd: Cmd) | Get

  /** How a command left the ring. */
  datatype Fate = Delivered(cmd: Cmd) | Freed(cmd: Cmd)

  /** All commands ever sent, those still queued (oldest first), and those gone, in the order they left. */
  datatype Log = Log(sent: seq<Cmd>, queue: seq<Cmd>, gone: seq<Fate>)

  /** The ring's meaning: a bounded queue that drops its oldest entry when it is full. */
  function Step(log: Log, op: Op): Log {
    match op
    case Send(cmd) =>
      if |log.queue| < MESSAGE_NUM_MAX then
        Log(log.sent + [cmd], log.queue + [cmd], log.gone)
      else
        Log(log.sent + [cmd], log.queue[1..] + [cmd], log.gone + [Freed(log.queue[0])])
    case Get =>
      if log.queue == [] then log
      else log.(queue := log.queue[1..], gone := log.gone + [Delivered(log.queue[0])])
  }

  function After(ops: seq<Op>): Log {
    if ops == [] then Log([], [], [])
    else Step(After(ops[..|ops| - 1]), ops[|ops| - 1])
  }

  /** Every send is accounted for exactly once: the i-th command sent is the i-th one gone, or else it is
      queued; so the queue is the last commands sent, in order. */
  ghost predicate Accounted(log: Log) {
    && |log.queue| <= MESSAGE_NUM_MAX
    && |log.gone| + |log.queue| == |log.sent|
    && (forall i :: 0 <= i < |log.gone| ==> log.gone[i].cmd == log.sent[i])
    && log.queue == log.sent[|log.gone|..]
  }

  lemma StepAccounted(log: Log, op: Op)
    requires Accounted(log)
    ensures Accounted(Step(log, op))
  {
  }

  lemma {:induction false} RunAccounted(ops: seq<Op>)
    ensures Accounted(After(ops))
  {
    if ops != [] {
      RunAccounted(ops[..|ops| - 1]);
      StepAccounted(After(ops[..|ops| - 1]), ops[|ops| - 1]);
    }
  }

  function Sends(ops: seq<Op>): seq<Cmd> {
    if ops == [] then []
    else Sends(ops[..|ops| - 1]) + match ops[|ops| - 1] { case Send(cmd) => [cmd] case Get => [] }
  }

  /** The ring never refuses a command: after any run, what was sent is what the senders sent. */
  lemma {:induction false} NothingRefused(ops: seq<Op>)
    ensures After(ops).sent == Sends(ops)
  {
    if ops != [] {
      NothingRefused(ops[..|ops| - 1]);
    }
  }

  function Wrap(out: nat, k: nat): nat
    requires out < MESSAGE_NUM_MAX && k <= MESSAGE_NUM_MAX
  {
    if out + k < MESSAGE_NUM_MAX then out + k else out + k - MESSAGE_NUM_MAX
  }

  /** So between sends and gets, `in == (out + num) mod 12`. */
  lemma WrapIsModular(out: nat, k: nat)
    requires out < MESSAGE_NUM_MAX && k <= MESSAGE_NUM_MAX
    ensures Wrap(out, k) == (out + k) % MESSAGE_NUM_MAX
  {
    var x := out + k;
    assert x < MESSAGE_NUM_MAX ==> x / MESSAGE_NUM_MAX == 0;
    assert MESSAGE_NUM_MAX <= x ==> x / MESSAGE_NUM_MAX == 1;
  }

  class Pool {
    var slots: array<Cmd> // message_lise
    var inIndex: nat
    var outIndex: nat
    var num: nat
    ghost var log: Log

    ghost predicate Valid()
      reads this, slots
    {
      && slots.Length == MESSAGE_NUM_MAX + 1
      && inIndex < MESSAGE_NUM_MAX && outIndex < MESSAGE_NUM_MAX
      && num == |log.queue| <= MESSAGE_NUM_MAX
      && inIndex == Wrap(outIndex, num)
      && (forall k :: 0 <= k < num ==> slots[Wrap(outIndex, k)] == log.queue[k])
    }

    constructor ()
      ensures Valid() && fresh(slots) && log == After([])
    {
      slots := new Cmd[MESSAGE_NUM_MAX + 1](_ => 0);
      inIndex, outIndex, num := 0, 0, 0;
      log := Log([], [], []);
    }

    /** The locked part of `adec_send_message`. */
    method Send(cmd: Cmd) returns (ret: int)
      requires Valid()
      modifies this`inIndex, this`outIndex, this`num, this`log, slots
      ensures Valid()
      ensures ret == 0 && log == Step(old(log), Op.Send(cmd))
      ensures log.sent == old(log.sent) + [cmd]
      ensures old(num) < 12 ==> log.queue == old(log.queue) + [cmd] && log.gone == old(log.gone)
      ensures old(num) == 12 ==>
                && log.queue == old(log.queue)[1..] + [cmd]
                && log.gone == old(log.gone) + [Freed(old(log.queue)[0])]
    {
      if num < MESSAGE_NUM_MAX {
        slots[inIndex] := cmd;
        inIndex := (inIndex + 1) % MESSAGE_NUM_MAX;
        num := num + 1;
        log := Log(log.sent + [cmd], log.queue + [cmd], log.gone);
      } else {
        Replace(cmd);
      }
      return 0;
    }

    /** The branch for a full ring: the new command takes the place of the oldest. */
    method Replace(cmd: Cmd)
      requires Valid() && num == MESSAGE_NUM_MAX
      modifies this`inIndex, this`outIndex, this`log, slots
      ensures Valid() && log == Step(old(log), Op.Send(cmd))
    {
      var oldest := slots[inIndex];
      log := log.(gone := log.gone + [Freed(oldest)]);
      outIndex := (outIndex + 1) % MESSAGE_NUM_MAX;
      slots[inIndex] := cmd;
      inIndex := (inIndex + 1) % MESSAGE_NUM_MAX;
      log := log.(sent := log.sent + [cmd], queue := log.queue[1..] + [cmd]);
    }

    method Get() returns (cmd: Option<Cmd>)
      requires Valid()
      modifies this`outIndex, this`num, this`log
      ensures Valid() && log == Step(old(log), Op.Get)
      ensures cmd == if old(log.queue) == [] then None else Some(old(log.queue)[0])
      ensures cmd.None? ==> log == old(log)
      ensures cmd.Some? ==> log == Log(old(log.sent), old(log.queue)[1..], old(log.gone) + [Delivered(cmd.value)])
    {
      cmd := None;
      if num > 0 {
        cmd := Some(slots[outIndex]);
        outIndex := (outIndex + 1) % MESSAGE_NUM_MAX;
        num := num - 1;
        log := log.(queue := log.queue[1..], gone := log.gone + [Delivered(cmd.value)]);
      }
    }

    /** Other threads run `others` against the ring. */
    method Perform(others: seq<Op>)
      requires Valid()
      modifies this`inIndex, this`outIndex, this`num, this`log, slots
      ensures Valid()
      ensures Accounted(old(log)) ==> Accounted(log)
    {
      for i := 0 to |others|
        invariant Valid() && (Accounted(old(log)) ==> Accounted(log))
      {
        if Accounted(log) {
          StepAccounted(log, others[i]);
        }
        match others[i]
        case Send(cmd) => var _ := Send(cmd);
        case Get => var _ := Get();
      }
    }

    /** `adec_send_message`: while the ring is more than half full, nap and let the others run, then send.
        However the others behave, it gives up waiting after at most 62 naps, and always sends. */
    method SendMessage(cmd: Cmd, others: nat -> seq<Op>)
      returns (ret: int, naps: nat, ghost before: Log, ghost seen: seq<nat>)
      requires Valid() && Accounted(log)
      modifies this`inIndex, this`outIndex, this`num, this`log, slots
      ensures Valid() && Accounted(log)
      ensures ret == 0 && naps <= 62
      ensures old(num) <= MESSAGE_NUM_MAX / 2 ==> naps == 0 && log == Step(old(log), Op.Send(cmd))
      ensures log.queue != [] && log.queue[|log.queue| - 1] == cmd
      // `seen` is how many commands it found before each nap and at last: it naps as long as there are more than
      // six, and no longer than ten times as many naps as there are too many
      ensures log == Step(before, Op.Send(cmd)) && |seen| == naps + 1
      ensures seen[0] == old(num) && seen[naps] == |before.queue|
      ensures forall k :: 0 <= k < naps ==> seen[k] > 6 && (k > 0 ==> k - 1 <= (seen[k] - 6) * 10)
      ensures seen[naps] <= 6 || naps - 1 > (seen[naps] - 6) * 10
    {
      var retryCount := 0;
      naps := 0;
      seen := [num];
      while num > MESSAGE_NUM_MAX / 2
        invariant |seen| == naps + 1 && seen[0] == old(num) && seen[naps] == num
        invariant forall k :: 0 <= k < naps ==> seen[k] > 6 && (k > 0 ==> k - 1 <= (seen[k] - 6) * 10)
        invariant naps > 0 ==> num <= 6 || naps - 1 <= (num - 6) * 10
        invariant Valid() && Accounted(log)
        invariant retryCount == naps <= 61
        invariant naps > 0 ==> old(num) > MESSAGE_NUM_MAX / 2
        invariant naps == 0 ==> log == old(log) && num == old(num)
        decreases 62 - naps
      {
        Perform(others(naps));
        naps := naps + 1;
        seen := seen + [num];
        retryCount := retryCount + 1;
        if retryCount - 1 > (num - MESSAGE_NUM_MAX / 2) * 10 {
          break;
        }
      }
      StepAccounted(log, Op.Send(cmd));
      before := log;
      ret := Send(cmd);
    }
  }
}
