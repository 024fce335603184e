/**
 * The signal dispatcher: the alternate signal stack installed for the
 * handlers and the record needed to put the previous one back, the saved
 * dispositions of the six exception signals, the registry of attached
 * handlers, and the decisions the signal handler takes when a signal
 * arrives.
 *
 * The kernel's state for the calling thread (its alternate stack, the six
 * dispositions) is part of the model; whether each system call succeeds,
 * where `mmap` maps, and what each attached handler answers are parameters.
 */
module Handler {
  import opened Wrappers

  const MIN_STACK_SIZE: nat := 16 * 1024
  /** `si_code` of a signal sent by `kill`. */
  const SI_USER: int := 0
  /** `si_code` of a signal sent by `tkill` or `tgkill`. */
  const SI_TKILL: int := -6

  const SIGILL: nat := 4
  const SIGTRAP: nat := 5
  const SIGABRT: nat := 6
  const SIGBUS: nat := 7
  const SIGFPE: nat := 8
  const SIGSEGV: nat := 11

  /** `EXCEPTION_SIGNALS`; dispositions are indexed by position in it. */
  const EXCEPTION_SIGNALS: seq<nat> := [SIGSEGV, SIGABRT, SIGFPE, SIGILL, SIGBUS, SIGTRAP]
  const SIGNAL_COUNT: nat := 6

  // ------------------------------------------------------------ alternate stack

  /** `stack_t`: base, whether `SS_DISABLE` is set, and size. */
  datatype Stack = Stack(sp: nat, disabled: bool, size: nat)

  const DISABLED_STACK: Stack := Stack(0, true, 0)

  /** `StackSave`: the stack to put back (if any) and the one installed here. */
  datatype StackSave = StackSave(previous: Option<Stack>, installed: Stack)

  datatype Error = OutOfMemory

  /** The addresses of the `size` bytes from `start`, in order. */
  function Addresses(start: nat, size: nat): (r: seq<nat>)
    ensures |r| == size && forall k :: 0 <= k < size ==> r[k] == start + k
  {
    seq(size, k => start + k)
  }

  /** Every address from `start` up to `start + size` is one of them. */
  lemma AddressesCover(start: nat, size: nat)
    ensures forall a :: start <= a < start + size ==> a in Addresses(start, size)
  {
    forall a | start <= a < start + size
      ensures a in Addresses(start, size)
    {
      assert Addresses(start, size)[a - start] == a;
    }
  }

  /** The addresses of the `size` bytes from `start`: what an `mmap` maps or a `munmap` releases. */
  function Region(start: nat, size: nat): (r: set<nat>)
    ensures forall a :: a in r <==> start <= a < start + size
  {
    AddressesCover(start, size);
    set a | a in Addresses(start, size)
  }

  /**
   * `restore_sigaltstack` unmaps the stack it registered, not the whole
   * mapping `install_sigaltstack` made: the guard page below it stays
   * mapped.
   */
  lemma GuardPageStaysMapped(base: nat, pageSize: nat)
    ensures Region(base, pageSize + MIN_STACK_SIZE) - Region(base + pageSize, MIN_STACK_SIZE) == Region(base, pageSize)
  {
  }

  /** An existing alternate stack is kept when it is enabled and big enough. */
  predicate Sufficient(s: Stack) {
    !s.disabled && s.size >= MIN_STACK_SIZE
  }

  /** Two stack records mean the same to the kernel: both disabled, or the same stack. */
  predicate SameStack(a: Stack, b: Stack) {
    (a.disabled && b.disabled) || a == b
  }

  /**
   * The previous stack `install_sigaltstack` keeps for later, as written:
   * only a disabled one.
   */
  function KeptAsWritten(prev: Stack): (r: Option<Stack>)
    ensures r.Some? <==> prev.disabled
    ensures r.Some? ==> r.value == prev
    ensures r != Kept(prev)
  {
    if prev.disabled then Some(prev) else None
  }

  /** The previous stack as it is meant to be kept: the enabled one there was. */
  function Kept(prev: Stack): Option<Stack> {
    if !prev.disabled then Some(prev) else None
  }

  /**
   * `restore_sigaltstack`'s choice of the stack to register: the kept one,
   * or a disabled one; only when the current stack is the one installed
   * here.
   */
  function StackAfterRestore(save: StackSave, current: Stack): Stack {
    if current.sp != save.installed.sp then current
    else match save.previous
      case Some(prev) => prev
      case None => DISABLED_STACK
  }

  /**
   * As written, replacing an enabled stack that is too small and restoring
   * afterwards leaves no alternate stack at all instead of the previous one.
   */
  lemma RestoreLosesSmallStack()
    ensures var prev := Stack(0x1000, false, 8192);
            var ours := Stack(0x20000 + 4096, false, MIN_STACK_SIZE);
            && !Sufficient(prev)
            && StackAfterRestore(StackSave(KeptAsWritten(prev), ours), ours) == DISABLED_STACK
            && !SameStack(StackAfterRestore(StackSave(KeptAsWritten(prev), ours), ours), prev)
  {
  }

  /** Installing over any insufficient stack and restoring gives back the previous stack. */
  lemma RestoreGivesBackStack(prev: Stack, ours: Stack)
    requires !Sufficient(prev)
    ensures SameStack(StackAfterRestore(StackSave(Kept(prev), ours), ours), prev)
  {
  }

  // ------------------------------------------------------------ dispositions

  /** The function a disposition runs. */
  datatype Handler = SigDfl | SignalHandler | Foreign(address: nat)

  /** `sigaction`: the handler, the `SA_ONSTACK` and `SA_SIGINFO` flags, and the signals masked while it runs. */
  datatype Action = Action(handler: Handler, onStack: bool, sigInfo: bool, mask: set<nat>)

  /** What `signal(sig, SIG_DFL)` installs. */
  const DEFAULT_ACTION: Action := Action(SigDfl, false, false, {})

  /** The disposition `install_handlers` installs for each of the six signals. */
  const OUR_ACTION: Action := Action(SignalHandler, true, true, {SIGSEGV, SIGABRT, SIGFPE, SIGILL, SIGBUS, SIGTRAP})

  /** The six dispositions after `install_handlers`: ours wherever installing it worked. */
  function Installed(actions: seq<Action>, installOk: seq<bool>): (r: seq<Action>)
    requires |actions| == SIGNAL_COUNT && |installOk| == SIGNAL_COUNT
    ensures |r| == SIGNAL_COUNT
  {
    seq(SIGNAL_COUNT, i requires 0 <= i < SIGNAL_COUNT => if installOk[i] then OUR_ACTION else actions[i])
  }

  /** The six dispositions after `restore_handlers`: the saved one, or the default where restoring it failed. */
  function Restored(saved: seq<Action>, restoreOk: seq<bool>): (r: seq<Action>)
    requires |saved| == SIGNAL_COUNT && |restoreOk| == SIGNAL_COUNT
    ensures |r| == SIGNAL_COUNT
  {
    seq(SIGNAL_COUNT, i requires 0 <= i < SIGNAL_COUNT => if restoreOk[i] then saved[i] else DEFAULT_ACTION)
  }

  /**
   * Installing and then restoring with every restore working gives back
   * the dispositions there were, whichever installs failed.
   */
  lemma InstallRestoreRoundTrip(actions: seq<Action>, installOk: seq<bool>, restoreOk: seq<bool>)
    requires |actions| == SIGNAL_COUNT && |installOk| == SIGNAL_COUNT && |restoreOk| == SIGNAL_COUNT
    requires forall i :: 0 <= i < SIGNAL_COUNT ==> restoreOk[i]
    ensures Restored(actions, restoreOk) == actions
    ensures forall i :: 0 <= i < SIGNAL_COUNT && installOk[i] ==> Installed(actions, installOk)[i] == OUR_ACTION
  {
  }

  /** `handle_signal`'s trust check: a fault, or a `kill`/`tgkill` from this very process, makes the process dumpable. */
  predicate Trusted(siCode: int, senderPid: nat, pid: nat) {
    siCode > 0 || ((siCode == SI_USER || siCode == SI_TKILL) && senderPid == pid)
  }

  /** The first live handler, from position `i` of the registry on, that answers that it handled the signal. */
  function FirstHandler(registry: seq<nat>, live: set<nat>, answers: seq<bool>, i: nat): (r: Option<nat>)
    requires |answers| == |registry| && i <= |registry|
    ensures r.Some? ==> i <= r.value < |registry| && registry[r.value] in live && answers[r.value]
    decreases |registry| - i
  {
    if i == |registry| then None
    else if registry[i] in live && answers[i] then Some(i)
    else FirstHandler(registry, live, answers, i + 1)
  }

  /** Handlers are asked in push order and the first that handles the signal wins. */
  lemma {:induction false} FirstHandlerIsFirst(registry: seq<nat>, live: set<nat>, answers: seq<bool>, i: nat)
    requires |answers| == |registry| && i <= |registry|
    ensures FirstHandler(registry, live, answers, i).None? <==>
              forall k :: i <= k < |registry| ==> !(registry[k] in live && answers[k])
    ensures FirstHandler(registry, live, answers, i).Some? ==>
              forall k :: i <= k < FirstHandler(registry, live, answers, i).value ==> !(registry[k] in live && answers[k])
    decreases |registry| - i
  {
    if i < |registry| && !(registry[i] in live && answers[i]) {
      FirstHandlerIsFirst(registry, live, answers, i + 1);
    }
  }

  /** Some handler among the first `j` of the registry is still alive, so `signal_handler` asks it. */
  predicate AnyLive(registry: seq<nat>, live: set<nat>, j: nat)
    requires j <= |registry|
  {
    exists k :: 0 <= k < j && registry[k] in live
  }

  /** A live handler at position `j` is among those asked whatever the loop does after it. */
  lemma AnyLiveFrom(registry: seq<nat>, live: set<nat>, j: nat)
    requires j < |registry| && registry[j] in live
    ensures AnyLive(registry, live, j + 1) && AnyLive(registry, live, |registry|)
  {
  }

  /** Whether the signal is sent again after the handler returns. */
  datatype Reraise = NotReraised | Reraised | Exited

  /** What `signal_handler` did. */
  datatype Outcome =
    | Retry                                        // the disposition lost `SA_SIGINFO` and was put right
    | Dispatched(handledBy: Option<nat>, reraise: Reraise)

  /** Re-raising is needed for a signal sent by a process, and for `SIGABRT`. */
  predicate SentByProcess(sig: nat, siCode: int) {
    siCode <= 0 || sig == SIGABRT
  }

  function ReraiseOf(sig: nat, siCode: int, tgkillOk: bool): (r: Reraise)
    ensures r != NotReraised <==> SentByProcess(sig, siCode)
    ensures r == Exited <==> SentByProcess(sig, siCode) && !tgkillOk
  {
    if SentByProcess(sig, siCode) then (if tgkillOk then Reraised else Exited) else NotReraised
  }

  /** The process-wide state the dispatcher works on. */
  class Dispatcher {
    /** The kernel's alternate signal stack. */
    var altStack: Stack
    /** `STACK_SAVE` */
    var stackSave: Option<StackSave>
    /** The addresses mapped for alternate stacks and not yet unmapped. */
    var mapped: set<nat>
    /** The kernel's dispositions of the six exception signals. */
    var actions: seq<Action>
    /** `OLD_HANDLERS` */
    var oldHandlers: Option<seq<Action>>
    /** `HANDLER_STACK`: the attached handlers, in push order. */
    var registry: seq<nat>
    /** The handlers still alive, whose weak reference can be upgraded. */
    var live: set<nat>
    /** Set by `PR_SET_DUMPABLE`. */
    var dumpable: bool
    var nextId: nat

    predicate Valid()
      reads this
    {
      && |actions| == SIGNAL_COUNT && (oldHandlers.Some? ==> |oldHandlers.value| == SIGNAL_COUNT)
      && (forall x :: x in live ==> x < nextId)
    }

    constructor (altStack: Stack, actions: seq<Action>)
      requires |actions| == SIGNAL_COUNT
      ensures Valid() && this.altStack == altStack && this.actions == actions
      ensures stackSave == None && oldHandlers == None && registry == [] && live == {} && mapped == {}
    {
      this.altStack := altStack;
      stackSave := None;
      mapped := {};
      this.actions := actions;
      oldHandlers := None;
      registry := [];
      live := {};
      dumpable := false;
      nextId := 0;
    }

    /**
     * `install_sigaltstack`: a sufficient stack is kept; otherwise a guard
     * page and 16 KiB are mapped at `base` (where `mmap` put them), the 16 KiB above the guard page
     * become the alternate stack, and the previous stack is kept for
     * `restore_sigaltstack` when it was enabled.
     */
    method InstallSigaltstack(mmapOk: bool, base: nat, pageSize: nat) returns (r: Result<(), Error>)
      modifies this
      ensures Sufficient(old(altStack)) ==> r.Ok? && unchanged(this)
      ensures !Sufficient(old(altStack)) && !mmapOk ==> r == Err(OutOfMemory) && unchanged(this)
      ensures !Sufficient(old(altStack)) && mmapOk ==>
                && r.Ok?
                && altStack == Stack(base + pageSize, false, MIN_STACK_SIZE)
                && stackSave == Some(StackSave(Kept(old(altStack)), altStack))
                && mapped == old(mapped) + Region(base, pageSize + MIN_STACK_SIZE)
                && actions == old(actions) && oldHandlers == old(oldHandlers)
                && registry == old(registry) && live == old(live) && dumpable == old(dumpable) && nextId == old(nextId)
    {
      if Sufficient(altStack) {
        return Ok(());
      }
      if !mmapOk {
        return Err(OutOfMemory);
      }
      var newStack := Stack(base + pageSize, false, MIN_STACK_SIZE);
      var previous := altStack;
      mapped := mapped + Region(base, pageSize + MIN_STACK_SIZE);
      altStack := newStack;
      stackSave := Some(StackSave(Kept(previous), newStack));
      return Ok(());
    }

    /**
     * `restore_sigaltstack`: when a stack was installed here, the previous
     * one is put back if the current stack is still ours, then the stack
     * recorded as installed is unmapped and the record cleared. A failing
     * `sigaltstack` call stops it with nothing changed.
     */
    method RestoreSigaltstack(queryOk: bool, setOk: bool)
      modifies this
      ensures old(stackSave).None? || !queryOk ==> unchanged(this)
      ensures old(stackSave).Some? && queryOk && old(altStack).sp == old(stackSave).value.installed.sp && !setOk ==> unchanged(this)
      ensures old(stackSave).Some? && queryOk && (old(altStack).sp != old(stackSave).value.installed.sp || setOk) ==>
                && altStack == StackAfterRestore(old(stackSave).value, old(altStack))
                && stackSave == None
                && mapped == old(mapped) - Region(old(stackSave).value.installed.sp, old(stackSave).value.installed.size)
                && actions == old(actions) && oldHandlers == old(oldHandlers)
                && registry == old(registry) && live == old(live) && dumpable == old(dumpable) && nextId == old(nextId)
    {
      if stackSave.None? || !queryOk {
        return;
      }
      var save := stackSave.value;
      if altStack.sp == save.installed.sp {
        if !setOk {
          return;
        }
        altStack := StackAfterRestore(save, altStack);
      }
      mapped := mapped - Region(save.installed.sp, save.installed.size);
      stackSave := None;
    }

    /**
     * `install_handlers`: once dispositions are saved nothing is done; a
     * failed query of a previous disposition gives up before anything is
     * installed; otherwise the previous six are saved and ours installed
     * wherever `sigaction` works.
     */
    method InstallHandlers(queryOk: seq<bool>, installOk: seq<bool>)
      requires Valid() && |queryOk| == SIGNAL_COUNT && |installOk| == SIGNAL_COUNT
      modifies this
      ensures Valid()
      ensures old(oldHandlers).Some? || (exists i :: 0 <= i < SIGNAL_COUNT && !queryOk[i]) ==> unchanged(this)
      ensures old(oldHandlers).None? && (forall i :: 0 <= i < SIGNAL_COUNT ==> queryOk[i]) ==>
                && oldHandlers == Some(old(actions))
                && actions == Installed(old(actions), installOk)
                && altStack == old(altStack) && stackSave == old(stackSave) && mapped == old(mapped)
                && registry == old(registry) && live == old(live) && dumpable == old(dumpable) && nextId == old(nextId)
    {
      if oldHandlers.Some? {
        return;
      }
      var saved: seq<Action> := [];
      for i := 0 to SIGNAL_COUNT
        invariant saved == actions[..i] && actions == old(actions)
        invariant forall k :: 0 <= k < i ==> queryOk[k]
      {
        if !queryOk[i] {
          return;
        }
        saved := saved + [actions[i]];
      }
      for i := 0 to SIGNAL_COUNT
        invariant |actions| == SIGNAL_COUNT
        invariant forall k :: 0 <= k < i ==> actions[k] == Installed(saved, installOk)[k]
        invariant forall k :: i <= k < SIGNAL_COUNT ==> actions[k] == saved[k]
        invariant saved == old(actions) && oldHandlers == None
        invariant altStack == old(altStack) && stackSave == old(stackSave) && mapped == old(mapped)
        invariant registry == old(registry) && live == old(live) && dumpable == old(dumpable) && nextId == old(nextId)
      {
        if installOk[i] {
          actions := actions[i := OUR_ACTION];
        }
      }
      oldHandlers := Some(saved);
    }

    /** `install_default_handler` */
    method InstallDefaultHandler(i: nat)
      requires Valid() && i < SIGNAL_COUNT
      modifies this
      ensures Valid() && actions == old(actions)[i := DEFAULT_ACTION]
      ensures altStack == old(altStack) && stackSave == old(stackSave) && mapped == old(mapped) && oldHandlers == old(oldHandlers)
      ensures registry == old(registry) && live == old(live) && dumpable == old(dumpable) && nextId == old(nextId)
    {
      actions := actions[i := DEFAULT_ACTION];
    }

    /**
     * `restore_handlers`: each saved disposition is put back, the default
     * where that fails, and the saved table is always cleared.
     */
    method RestoreHandlers(restoreOk: seq<bool>)
      requires Valid() && |restoreOk| == SIGNAL_COUNT
      modifies this
      ensures Valid() && oldHandlers == None
      ensures old(oldHandlers).Some? ==> actions == Restored(old(oldHandlers).value, restoreOk)
      ensures old(oldHandlers).None? ==> actions == old(actions)
      ensures altStack == old(altStack) && stackSave == old(stackSave) && mapped == old(mapped)
      ensures registry == old(registry) && live == old(live) && dumpable == old(dumpable) && nextId == old(nextId)
    {
      if oldHandlers.Some? {
        var saved := oldHandlers.value;
        for i := 0 to SIGNAL_COUNT
          invariant |actions| == SIGNAL_COUNT
          invariant forall k :: 0 <= k < i ==> actions[k] == Restored(saved, restoreOk)[k]
          invariant forall k :: i <= k < SIGNAL_COUNT ==> actions[k] == old(actions)[k]
          invariant oldHandlers == old(oldHandlers)
          invariant altStack == old(altStack) && stackSave == old(stackSave) && mapped == old(mapped)
          invariant registry == old(registry) && live == old(live) && dumpable == old(dumpable) && nextId == old(nextId)
        {
          if restoreOk[i] {
            actions := actions[i := saved[i]];
          } else {
            InstallDefaultHandler(i);
          }
        }
      }
      oldHandlers := None;
    }

    /** `HandlerInner::handle_signal`: a trusted signal makes the process dumpable; `dumped` is whether the dump worked. */
    method HandleSignal(siCode: int, senderPid: nat, pid: nat, dumped: bool) returns (handled: bool)
      modifies this
      ensures handled == dumped
      ensures dumpable == (old(dumpable) || Trusted(siCode, senderPid, pid))
      ensures altStack == old(altStack) && stackSave == old(stackSave) && mapped == old(mapped)
      ensures actions == old(actions) && oldHandlers == old(oldHandlers)
      ensures registry == old(registry) && live == old(live) && nextId == old(nextId)
    {
      if Trusted(siCode, senderPid, pid) {
        dumpable := true;
      }
      return dumped;
    }

    /**
     * `signal_handler` for exception signal number `i`. A disposition of
     * ours that lost `SA_SIGINFO` is put right and the handler returns.
     * Otherwise the live handlers are asked in push order until one handles
     * the signal; then the default disposition is installed for it, or, if
     * none did, all dispositions are restored. A signal sent by a process
     * (or `SIGABRT`) is re-raised, and a failed re-raise exits.
     */
    method SignalHandlerEntry(i: nat, siCode: int, senderPid: nat, pid: nat, queryOk: bool, reinstallOk: bool,
                              answers: seq<bool>, restoreOk: seq<bool>, tgkillOk: bool) returns (o: Outcome)
      requires Valid() && i < SIGNAL_COUNT && |answers| == |registry| && |restoreOk| == SIGNAL_COUNT
      modifies this
      ensures Valid()
      ensures var cur := old(actions)[i];
              queryOk && cur.handler == SignalHandler && !cur.sigInfo ==>
                && o == Retry
                && actions == old(actions)[i := if reinstallOk then Action(SignalHandler, true, true, {EXCEPTION_SIGNALS[i]}) else DEFAULT_ACTION]
                && oldHandlers == old(oldHandlers) && dumpable == old(dumpable)
      ensures var cur := old(actions)[i];
              !(queryOk && cur.handler == SignalHandler && !cur.sigInfo) ==>
                && o == Dispatched(old(FirstHandler(registry, live, answers, 0)), ReraiseOf(EXCEPTION_SIGNALS[i], siCode, tgkillOk))
                && (o.handledBy.Some? ==> actions == old(actions)[i := DEFAULT_ACTION] && oldHandlers == old(oldHandlers))
                && (o.handledBy.None? && old(oldHandlers).Some? ==> actions == Restored(old(oldHandlers).value, restoreOk))
                && (o.handledBy.None? ==> oldHandlers == None)
                && dumpable == (old(dumpable) || (Trusted(siCode, senderPid, pid) && AnyLive(old(registry), old(live), |old(registry)|)))
      ensures registry == old(registry) && live == old(live) && altStack == old(altStack) && stackSave == old(stackSave)
      ensures mapped == old(mapped) && nextId == old(nextId)
    {
      var cur := actions[i];
      if queryOk && cur.handler == SignalHandler && !cur.sigInfo {
        if reinstallOk {
          actions := actions[i := Action(SignalHandler, true, true, {EXCEPTION_SIGNALS[i]})];
        } else {
          InstallDefaultHandler(i);
        }
        return Retry;
      }
      var j := 0;
      var handledBy: Option<nat> := None;
      while j < |registry|
        invariant j <= |registry| && Valid()
        invariant registry == old(registry) && live == old(live) && altStack == old(altStack) && stackSave == old(stackSave)
        invariant actions == old(actions) && oldHandlers == old(oldHandlers)
        invariant mapped == old(mapped) && nextId == old(nextId)
        invariant dumpable == (old(dumpable) || (Trusted(siCode, senderPid, pid) && AnyLive(registry, live, j)))
        invariant FirstHandler(registry, live, answers, j) == FirstHandler(registry, live, answers, 0)
        decreases |registry| - j
      {
        if registry[j] in live {
          var handled := HandleSignal(siCode, senderPid, pid, answers[j]);
          if handled {
            handledBy := Some(j);
            AnyLiveFrom(registry, live, j);
            break;
          }
        }
        j := j + 1;
      }
      if handledBy.Some? {
        InstallDefaultHandler(i);
      } else {
        RestoreHandlers(restoreOk);
      }
      return Dispatched(handledBy, ReraiseOf(EXCEPTION_SIGNALS[i], siCode, tgkillOk));
    }

    /**
     * `ExceptionHandler::attach`: the alternate stack and the handlers are
     * installed and exactly one new, live entry is pushed on the registry.
     */
    method Attach(mmapOk: bool, base: nat, pageSize: nat, queryOk: seq<bool>, installOk: seq<bool>) returns (r: Result<nat, Error>)
      requires Valid() && |queryOk| == SIGNAL_COUNT && |installOk| == SIGNAL_COUNT
      modifies this
      ensures Valid()
      ensures r.Err? <==> !Sufficient(old(altStack)) && !mmapOk
      ensures r.Err? ==> unchanged(this)
      ensures r.Ok? ==> registry == old(registry) + [r.value] && live == old(live) + {r.value} && r.value !in old(live)
      ensures r.Ok? ==> Sufficient(altStack) && dumpable == old(dumpable)
      ensures r.Ok? && Sufficient(old(altStack)) ==>
                altStack == old(altStack) && stackSave == old(stackSave) && mapped == old(mapped)
      ensures r.Ok? && !Sufficient(old(altStack)) ==>
                && altStack == Stack(base + pageSize, false, MIN_STACK_SIZE)
                && stackSave == Some(StackSave(Kept(old(altStack)), altStack))
                && mapped == old(mapped) + Region(base, pageSize + MIN_STACK_SIZE)
      ensures r.Ok? && old(oldHandlers).None? && (forall i :: 0 <= i < SIGNAL_COUNT ==> queryOk[i]) ==>
                oldHandlers == Some(old(actions)) && actions == Installed(old(actions), installOk)
      ensures r.Ok? && (old(oldHandlers).Some? || exists i :: 0 <= i < SIGNAL_COUNT && !queryOk[i]) ==>
                oldHandlers == old(oldHandlers) && actions == old(actions)
    {
      var installed := InstallSigaltstack(mmapOk, base, pageSize);
      if installed.Err? {
        return Err(installed.error);
      }
      InstallHandlers(queryOk, installOk);
      var id := nextId;
      nextId := id + 1;
      registry := registry + [id];
      live := live + {id};
      return Ok(id);
    }

    /**
     * `ExceptionHandler::detach`: the handler's entry is removed and the
     * handler dropped; when the registry becomes empty the alternate stack
     * and the dispositions are restored.
     */
    method Detach(id: nat, queryOk: bool, setOk: bool, restoreOk: seq<bool>) returns (removedAt: Option<nat>)
      requires Valid() && |restoreOk| == SIGNAL_COUNT
      modifies this
      ensures Valid() && live == old(live) - {id}
      ensures removedAt.None? <==> id !in old(live) || id !in old(registry)
      ensures removedAt.Some? ==>
                var k := removedAt.value;
                && k < |old(registry)| && old(registry)[k] == id
                && (forall j :: 0 <= j < k ==> old(registry)[j] != id)
                && registry == old(registry)[..k] + old(registry)[k + 1..]
      ensures removedAt.None? ==> registry == old(registry)
      ensures removedAt.Some? && registry == [] ==>
                && oldHandlers == None
                && (old(oldHandlers).Some? ==> actions == Restored(old(oldHandlers).value, restoreOk))
                && (old(oldHandlers).None? ==> actions == old(actions))
      ensures removedAt.Some? && registry == [] && (old(stackSave).None? || !queryOk) ==>
                altStack == old(altStack) && stackSave == old(stackSave) && mapped == old(mapped)
      ensures removedAt.Some? && registry == [] && old(stackSave).Some? && queryOk
              && old(altStack).sp == old(stackSave).value.installed.sp && !setOk ==>
                altStack == old(altStack) && stackSave == old(stackSave) && mapped == old(mapped)
      ensures removedAt.Some? && registry == [] && old(stackSave).Some? && queryOk
              && (old(altStack).sp != old(stackSave).value.installed.sp || setOk) ==>
                && altStack == StackAfterRestore(old(stackSave).value, old(altStack))
                && stackSave == None
                && mapped == old(mapped) - Region(old(stackSave).value.installed.sp, old(stackSave).value.installed.size)
      ensures removedAt.None? || registry != [] ==>
                && actions == old(actions) && oldHandlers == old(oldHandlers)
                && altStack == old(altStack) && stackSave == old(stackSave) && mapped == old(mapped)
      ensures dumpable == old(dumpable) && nextId == old(nextId)
    {
      removedAt := None;
      if id in live {
        var k := 0;
        while k < |registry|
          invariant k <= |registry|
          invariant forall j :: 0 <= j < k ==> registry[j] != id
        {
          if registry[k] == id {
            removedAt := Some(k);
            break;
          }
          k := k + 1;
        }
      }
      if removedAt.Some? {
        var k := removedAt.value;
        registry := registry[..k] + registry[k + 1..];
        if registry == [] {
          RestoreSigaltstack(queryOk, setOk);
          RestoreHandlers(restoreOk);
        }
      }
      live := live - {id};
    }
  }
}
