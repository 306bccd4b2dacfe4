/** The host side: `keep_exec` creates a keep from the shim and the payload,
    spawns its one thread and re-enters that thread until it asks to exit.

    The backend is an oracle: its replies to `keep`, `spawn` and each `enter`
    are fixed in advance, and it records the calls made on it. */
module Host {
  import opened Wrappers
  import opened Arch

  type i32 = x: int | -0x8000_0000 <= x < 0x8000_0000

  /** What a thread reports when `enter` returns. */
  datatype Command = Continue | Exit(code: i32)

  /** An error reported by the backend (an `anyhow::Error`). */
  datatype Error = Error(id: nat)

  /** A call made on the backend, in the order it was made. */
  datatype Call = CreateKeep(shim: seq<byte>, exec: seq<byte>) | Spawn | Enter

  /** How `keep_exec` ends: it returns a result, or it panics (`spawn`
      yielding no thread), or it is still running when the oracle has no
      reply left. */
  datatype ExecResult = Returned(result: Result<i32, Error>) | Panicked | Pending

  /** A backend whose keep and thread answer from fixed replies:
      `spawnReply` is `Ok(false)` when `spawn` yields no thread, and
      `enterReplies[entered]` is what the next `enter` returns. */
  class Backend {
    const keepReply: Outcome<Error>
    const spawnReply: Result<bool, Error>
    const enterReplies: seq<Result<Command, Error>>
    var entered: nat
    var trace: seq<Call>

    ghost predicate Valid()
      reads this
    {
      entered <= |enterReplies|
    }

    /** The replies `enter` has yet to give. */
    function Remaining(): seq<Result<Command, Error>>
      reads this
      requires Valid()
    {
      enterReplies[entered..]
    }

    constructor (keepReply: Outcome<Error>, spawnReply: Result<bool, Error>, enterReplies: seq<Result<Command, Error>>)
      ensures Valid() && entered == 0 && trace == []
      ensures this.keepReply == keepReply && this.spawnReply == spawnReply && this.enterReplies == enterReplies
    {
      this.keepReply := keepReply;
      this.spawnReply := spawnReply;
      this.enterReplies := enterReplies;
      entered := 0;
      trace := [];
    }

    /** `backend.keep(shim, exec)` */
    method Keep(shim: seq<byte>, exec: seq<byte>) returns (r: Outcome<Error>)
      requires Valid()
      modifies this
      ensures Valid() && r == keepReply
      ensures trace == old(trace) + [CreateKeep(shim, exec)] && entered == old(entered)
    {
      r := keepReply;
      trace := trace + [CreateKeep(shim, exec)];
    }

    /** `keep.spawn()` */
    method SpawnThread() returns (r: Result<bool, Error>)
      requires Valid()
      modifies this
      ensures Valid() && r == spawnReply
      ensures trace == old(trace) + [Spawn] && entered == old(entered)
    {
      r := spawnReply;
      trace := trace + [Spawn];
    }

    /** `thread.enter(..)` */
    method EnterThread() returns (r: Result<Command, Error>)
      requires Valid() && entered < |enterReplies|
      modifies this
      ensures Valid() && r == old(enterReplies[entered]) && entered == old(entered) + 1
      ensures trace == old(trace) + [Enter]
    {
      r := enterReplies[entered];
      entered := entered + 1;
      trace := trace + [Enter];
    }
  }

  /** The index of the first reply that stops the loop (anything but
      `Ok(Continue)`), if there is one. */
  function FirstStop(rs: seq<Result<Command, Error>>): (k: Option<nat>)
    ensures k.Some? ==> k.value < |rs| && rs[k.value] != Ok(Continue)
                        && forall j :: 0 <= j < k.value ==> rs[j] == Ok(Continue)
    ensures k.None? ==> forall j :: 0 <= j < |rs| ==> rs[j] == Ok(Continue)
  {
    if rs == [] then None
    else if rs[0] != Ok(Continue) then Some(0)
    else match FirstStop(rs[1..])
      case None => None
      case Some(k) => Some(k + 1)
  }

  /** How many times `enter` is called: up to and including the first
      stopping reply, or every reply when none stops. */
  function EnterCount(rs: seq<Result<Command, Error>>): (n: nat)
    ensures n <= |rs|
  {
    match FirstStop(rs)
    case None => |rs|
    case Some(k) => k + 1
  }

  function Enters(n: nat): seq<Call>
  {
    seq(n, _ => Enter)
  }

  /** What `keep_exec` ends with: an error from `keep` or `spawn` is
      returned, a missing thread panics, and otherwise the first stopping
      reply decides: an error is returned, `Exit(code)` returns `Ok(code)`. */
  function KeepExecResult(keepReply: Outcome<Error>, spawnReply: Result<bool, Error>,
                          rs: seq<Result<Command, Error>>): ExecResult
  {
    if keepReply.Fail? then Returned(Err(keepReply.error))
    else if spawnReply.Err? then Returned(Err(spawnReply.error))
    else if !spawnReply.value then Panicked
    else match FirstStop(rs)
      case None => Pending
      case Some(k) =>
        match rs[k]
        case Err(e) => Returned(Err(e))
        case Ok(Exit(code)) => Returned(Ok(code))
        case Ok(Continue) => assert false; Pending
  }

  /** The calls `keep_exec` makes on the backend, in order. */
  function KeepExecCalls(shim: seq<byte>, exec: seq<byte>, keepReply: Outcome<Error>,
                         spawnReply: Result<bool, Error>, rs: seq<Result<Command, Error>>): seq<Call>
  {
    [CreateKeep(shim, exec)]
    + (if keepReply.Fail? then [] else [Spawn])
    + (if keepReply.Fail? || spawnReply != Ok(true) then [] else Enters(EnterCount(rs)))
  }

  /** `keep_exec(backend, shim, exec, _)`. */
  method KeepExec(b: Backend, shim: seq<byte>, exec: seq<byte>) returns (o: ExecResult)
    requires b.Valid()
    modifies b
    ensures b.Valid()
    ensures o == KeepExecResult(b.keepReply, b.spawnReply, old(b.Remaining()))
    ensures b.trace == old(b.trace) + KeepExecCalls(shim, exec, b.keepReply, b.spawnReply, old(b.Remaining()))
    ensures b.entered == old(b.entered)
                         + (if b.keepReply.Fail? || b.spawnReply != Ok(true) then 0 else EnterCount(old(b.Remaining())))
  {
    ghost var rs := b.Remaining();
    ghost var start := b.entered;
    ghost var trace0 := b.trace;
    var k := b.Keep(shim, exec);
    if k.Fail? {
      return Returned(Err(k.error));
    }
    var t := b.SpawnThread();
    if t.Err? {
      return Returned(Err(t.error));
    }
    if !t.value {
      return Panicked;
    }
    while b.entered < |b.enterReplies|
      invariant b.Valid() && start <= b.entered
      invariant b.enterReplies[start..] == rs
      invariant forall j :: 0 <= j < b.entered - start ==> rs[j] == Ok(Continue)
      invariant b.trace == trace0 + [CreateKeep(shim, exec), Spawn] + Enters(b.entered - start)
      decreases |b.enterReplies| - b.entered
    {
      ghost var n := b.entered - start;
      var c := b.EnterThread();
      assert c == rs[n];
      assert Enters(n + 1) == Enters(n) + [Enter];
      match c
      case Err(e) =>
        FirstStopAt(rs, n);
        return Returned(Err(e));
      case Ok(Continue) =>
      case Ok(Exit(code)) =>
        FirstStopAt(rs, n);
        return Returned(Ok(code));
    }
    assert FirstStop(rs) == None;
    o := Pending;
  }

  /** The first stopping reply is the one after a run of `Continue`s. */
  lemma FirstStopAt(rs: seq<Result<Command, Error>>, n: nat)
    requires n < |rs| && rs[n] != Ok(Continue)
    requires forall j :: 0 <= j < n ==> rs[j] == Ok(Continue)
    ensures FirstStop(rs) == Some(n)
  {
  }

  /** `Continue` only causes another `enter`: dropping a leading `Continue`
      changes neither the result nor anything but one `enter` call. */
  lemma ContinueOnlyReenters(rs: seq<Result<Command, Error>>)
    requires |rs| > 0 && rs[0] == Ok(Continue)
    ensures FirstStop(rs) == (if FirstStop(rs[1..]).None? then None else Some(FirstStop(rs[1..]).value + 1))
    ensures EnterCount(rs) == EnterCount(rs[1..]) + 1
    ensures forall kr, sr :: KeepExecResult(kr, sr, rs) == KeepExecResult(kr, sr, rs[1..])
  {
    forall kr, sr
      ensures KeepExecResult(kr, sr, rs) == KeepExecResult(kr, sr, rs[1..])
    {
      if FirstStop(rs).Some? {
        assert rs[FirstStop(rs).value] == rs[1..][FirstStop(rs[1..]).value];
      }
    }
  }

  /** The first `Exit(code)` after only `Continue`s makes `keep_exec`
      return `Ok(code)` after exactly that many `enter` calls and no more. */
  lemma ExitReturnsItsCode(rs: seq<Result<Command, Error>>, n: nat, code: i32)
    requires n < |rs| && rs[n] == Ok(Exit(code))
    requires forall j :: 0 <= j < n ==> rs[j] == Ok(Continue)
    ensures KeepExecResult(Pass, Ok(true), rs) == Returned(Ok(code))
    ensures EnterCount(rs) == n + 1
  {
    FirstStopAt(rs, n);
  }

  /** The first error from `enter` after only `Continue`s is returned. */
  lemma EnterErrorPropagates(rs: seq<Result<Command, Error>>, n: nat, e: Error)
    requires n < |rs| && rs[n] == Err(e)
    requires forall j :: 0 <= j < n ==> rs[j] == Ok(Continue)
    ensures KeepExecResult(Pass, Ok(true), rs) == Returned(Err(e))
    ensures EnterCount(rs) == n + 1
  {
    FirstStopAt(rs, n);
  }

  /** Whenever `keep_exec` returns `Ok(code)`, some `enter` returned
      `Exit(code)` and every earlier one returned `Continue`. */
  lemma ReturnedCodeCameFromExit(keepReply: Outcome<Error>, spawnReply: Result<bool, Error>,
                                 rs: seq<Result<Command, Error>>, code: i32)
    requires KeepExecResult(keepReply, spawnReply, rs) == Returned(Ok(code))
    ensures keepReply.Pass? && spawnReply == Ok(true)
    ensures EnterCount(rs) > 0 && rs[EnterCount(rs) - 1] == Ok(Exit(code))
    ensures forall j :: 0 <= j < EnterCount(rs) - 1 ==> rs[j] == Ok(Continue)
  {
  }
}
