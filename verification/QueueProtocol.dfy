/** Tasks that push to and pop from one bounded queue and sleep on a futex while it is full or
    empty.  The tasks run on one thread and switch only where they await; the kernel's part is
    concurrent: it compares the futex word with the expected value some time after a wait has
    been submitted, and it carries out a wake some time after the notification.  A wait may be
    cancelled at any time before it is over. */
module QueueProtocol {
  datatype Op<+T> = Push(value: T) | Pop

  /** Where a task is.  `seen` is the futex word that it read before waiting. */
  datatype Phase<+T> =
    | Idle
    | Trying(op: Op<T>)                  // at the head of the retry loop
    | Submitted(op: Op<T>, seen: nat)     // waiting, not yet seen by the kernel
    | Sleeping(op: Op<T>, seen: nat)
    | Woken(op: Op<T>, seen: nat)         // the wait is over, the task has not run yet

  datatype State<+T> = State(
    capacity: nat,
    items: seq<T>,
    notifies: nat,          // how often the futex word has been incremented
    nonEmptyWakes: nat,     // notifications with the non-empty mask not yet carried out
    nonFullWakes: nat,
    tasks: seq<Phase<T>>,
    since: seq<nat>,        // history: the number of notifications at each task's last read of the word
    pushed: seq<T>,
    popped: seq<T>)

  const WORD_SIZE: nat := 0x1_0000_0000

  /** The 32-bit futex word. */
  function Word<T>(s: State<T>): nat { s.notifies % WORD_SIZE }

  datatype Action<+T> =
    | Start(t: nat, op: Op<T>)
    | Run(t: nat)                        // a trying or woken task runs to its next await
    | Compare(t: nat)                    // the kernel looks at a submitted wait
    | Wake(mask: Mask, t: nat)           // the kernel carries out a notification
    | WakeNobody(mask: Mask)             // ... and finds nobody asleep
    | Spurious(t: nat)                   // a sleep ends for no reason
    | Cancel(t: nat)                     // a wait ends with an error, which abandons the operation

  /** What a sleeper waits for. */
  datatype Mask = NonEmpty | NonFull

  function MaskOf<T>(op: Op<T>): Mask { if op.Pop? then NonEmpty else NonFull }

  predicate Asleep<T>(p: Phase<T>, mask: Mask) { p.Sleeping? && MaskOf(p.op) == mask }

  function Wakes<T>(s: State<T>, mask: Mask): nat { if mask == NonEmpty then s.nonEmptyWakes else s.nonFullWakes }

  ghost predicate Enabled<T>(s: State<T>, a: Action<T>) {
    match a
    case Start(t, _) => t < |s.tasks| && s.tasks[t].Idle?
    case Run(t) => t < |s.tasks| && (s.tasks[t].Trying? || s.tasks[t].Woken?)
    case Compare(t) => t < |s.tasks| && s.tasks[t].Submitted?
    case Wake(mask, t) => t < |s.tasks| && Asleep(s.tasks[t], mask) && Wakes(s, mask) > 0
    case WakeNobody(mask) => Wakes(s, mask) > 0 && forall t :: 0 <= t < |s.tasks| ==> !Asleep(s.tasks[t], mask)
    case Spurious(t) => t < |s.tasks| && s.tasks[t].Sleeping?
    case Cancel(t) => t < |s.tasks| && (s.tasks[t].Submitted? || s.tasks[t].Sleeping?)
  }

  function Becomes<T>(s: State<T>, t: nat, p: Phase<T>): State<T>
    requires t < |s.tasks|
  {
    s.(tasks := s.tasks[t := p])
  }

  /** A failed try: the word is read and a wait for it submitted. */
  function Waits<T>(s: State<T>, t: nat): State<T>
    requires t < |s.tasks| && s.tasks[t].Trying?
  {
    Becomes(s, t, Submitted(s.tasks[t].op, Word(s))).(
      since := if t < |s.since| then s.since[t := s.notifies] else s.since)
  }

  /** One notification: the word changes now, the wake comes later. */
  function Notify<T>(s: State<T>, mask: Mask): State<T> {
    match mask
    case NonEmpty => s.(notifies := s.notifies + 1, nonEmptyWakes := s.nonEmptyWakes + 1)
    case NonFull => s.(notifies := s.notifies + 1, nonFullWakes := s.nonFullWakes + 1)
  }

  function Woke<T>(s: State<T>, mask: Mask): State<T>
    requires Wakes(s, mask) > 0
  {
    match mask
    case NonEmpty => s.(nonEmptyWakes := s.nonEmptyWakes - 1)
    case NonFull => s.(nonFullWakes := s.nonFullWakes - 1)
  }

  /** The loop head of `push` and `pop`: success notifies the other side, failure reads the
      word and submits a wait. */
  function Try<T>(s: State<T>, t: nat): State<T>
    requires t < |s.tasks| && s.tasks[t].Trying?
  {
    match s.tasks[t].op
    case Push(value) =>
      if |s.items| < s.capacity then
        Notify(Becomes(s, t, Idle).(items := s.items + [value], pushed := s.pushed + [value]), NonEmpty)
      else Waits(s, t)
    case Pop =>
      if s.items != [] then
        Notify(Becomes(s, t, Idle).(items := s.items[1..], popped := s.popped + [s.items[0]]), NonFull)
      else Waits(s, t)
  }

  function Apply<T>(s: State<T>, a: Action<T>): State<T>
    requires Enabled(s, a)
  {
    match a
    case Start(t, op) => Becomes(s, t, Trying(op))
    case Run(t) =>
      if s.tasks[t].Trying? then Try(s, t)
      else if Word(s) == s.tasks[t].seen then Becomes(s, t, Submitted(s.tasks[t].op, s.tasks[t].seen))
      else Becomes(s, t, Trying(s.tasks[t].op))
    case Compare(t) =>
      var p := s.tasks[t];
      Becomes(s, t, if Word(s) == p.seen then Sleeping(p.op, p.seen) else Woken(p.op, p.seen))
    case Wake(mask, t) => Becomes(Woke(s, mask), t, Woken(s.tasks[t].op, s.tasks[t].seen))
    case WakeNobody(mask) => Woke(s, mask)
    case Spurious(t) => Becomes(s, t, Woken(s.tasks[t].op, s.tasks[t].seen))
    case Cancel(t) => Becomes(s, t, Idle)
  }

  // ---------------------------------------------------------------- counting tasks

  /** A task on its way to try its operation again, whatever the kernel does. */
  predicate Awake<T>(p: Phase<T>, mask: Mask, word: nat) {
    match p
    case Idle => false
    case Trying(op) => MaskOf(op) == mask
    case Submitted(_, _) => false
    case Sleeping(_, _) => false
    case Woken(op, seen) => MaskOf(op) == mask && seen != word
  }

  /** It waits, or is about to, for the word as it is now. */
  predicate Unnotified<T>(p: Phase<T>, mask: Mask, word: nat) {
    (p.Submitted? || p.Sleeping? || p.Woken?) && MaskOf(p.op) == mask && p.seen == word
  }

  function One<T>(p: Phase<T>, mask: Mask, word: nat): nat { if Awake(p, mask, word) then 1 else 0 }

  function AwakeCount<T>(tasks: seq<Phase<T>>, mask: Mask, word: nat): nat {
    if tasks == [] then 0 else One(tasks[0], mask, word) + AwakeCount(tasks[1..], mask, word)
  }

  lemma {:induction false} CountUpdate<T>(tasks: seq<Phase<T>>, t: nat, p: Phase<T>, mask: Mask, word: nat)
    requires t < |tasks|
    ensures AwakeCount(tasks[t := p], mask, word)
         == AwakeCount(tasks, mask, word) - One(tasks[t], mask, word) + One(p, mask, word)
  {
    var after := tasks[t := p];
    if t == 0 {
      assert after[1..] == tasks[1..];
    } else {
      assert after[1..] == tasks[1..][t - 1 := p];
      CountUpdate(tasks[1..], t - 1, p, mask, word);
    }
  }

  /** Changing the word to one that nobody has read keeps everybody awake. */
  lemma {:induction false} CountNewWord<T>(tasks: seq<Phase<T>>, mask: Mask, word: nat, word': nat)
    requires forall t :: 0 <= t < |tasks| ==> !Unnotified(tasks[t], mask, word')
    ensures AwakeCount(tasks, mask, word) <= AwakeCount(tasks, mask, word')
  {
    if tasks != [] {
      assert !Unnotified(tasks[0], mask, word');
      CountNewWord(tasks[1..], mask, word, word');
    }
  }

  // ---------------------------------------------------------------- the invariant

  ghost predicate SomeAsleep<T>(s: State<T>, mask: Mask) {
    exists t :: 0 <= t < |s.tasks| && Asleep(s.tasks[t], mask)
  }

  /** How much there is for the sleepers to do: items for consumers, free slots for producers. */
  function Work<T>(s: State<T>, mask: Mask): int {
    if mask == NonEmpty then |s.items| else s.capacity - |s.items|
  }

  /** No lost wakeup: while somebody sleeps, the work is covered by wakes that are still to come
      and by tasks that will try anyway. */
  ghost predicate Covered<T>(s: State<T>, mask: Mask) {
    SomeAsleep(s, mask) ==> Work(s, mask) <= Wakes(s, mask) + AwakeCount(s.tasks, mask, Word(s))
  }

  predicate Waiting<T>(p: Phase<T>) { p.Submitted? || p.Sleeping? || p.Woken? }

  /** A task that waits for the current word has nothing to do. */
  ghost predicate TaskOk<T>(s: State<T>, t: nat)
    requires t < |s.tasks|
  {
    Waiting(s.tasks[t]) && s.tasks[t].seen == Word(s) ==> Work(s, MaskOf(s.tasks[t].op)) == 0
  }

  ghost predicate WordsOk<T>(s: State<T>) {
    forall t {:trigger TaskOk(s, t)} :: 0 <= t < |s.tasks| ==> TaskOk(s, t)
  }

  ghost predicate Fifo<T>(s: State<T>) {
    |s.items| <= s.capacity && s.popped + s.items == s.pushed
  }

  /** What is known of a wait: its word was read at a time when there was nothing to do; each
      push and pop since then has notified. */
  ghost predicate WaitOk<T>(s: State<T>, t: nat)
    requires t < |s.tasks| == |s.since|
  {
    var p := s.tasks[t];
    Waiting(p) ==>
      && s.since[t] <= s.notifies && p.seen == s.since[t] % WORD_SIZE
      && (s.since[t] == s.notifies ==> Work(s, MaskOf(p.op)) == 0)
      && s.since[t] % 2 == if p.op.Pop? then 0 else s.capacity % 2
  }

  /** What every run keeps, however many notifications there are. */
  ghost predicate Base<T>(s: State<T>) {
    && Fifo(s) && |s.since| == |s.tasks| && s.notifies == |s.pushed| + |s.popped|
    && forall t {:trigger WaitOk(s, t)} :: 0 <= t < |s.tasks| ==> WaitOk(s, t)
  }

  /** No task waits across a positive multiple of 2^32 notifications. */
  ghost predicate Unaliased<T>(s: State<T>) {
    && |s.since| == |s.tasks|
    && forall t {:trigger s.tasks[t]} :: 0 <= t < |s.tasks| && Waiting(s.tasks[t]) ==>
         s.notifies > s.since[t] ==> (s.notifies - s.since[t]) % WORD_SIZE != 0
  }

  ghost predicate Initial<T>(s: State<T>) {
    && s.items == s.pushed == s.popped == [] && s.notifies == s.nonEmptyWakes == s.nonFullWakes == 0
    && |s.since| == |s.tasks| && forall t :: 0 <= t < |s.tasks| ==> s.tasks[t].Idle?
  }

  lemma ApplyFifo<T>(s: State<T>, a: Action<T>)
    requires Fifo(s) && Enabled(s, a)
    ensures Fifo(Apply(s, a))
  {
  }

  lemma NewWait<T>(s: State<T>, t: nat)
    requires Base(s) && t < |s.tasks| && s.tasks[t].Trying? && Work(s, MaskOf(s.tasks[t].op)) == 0
    ensures WaitOk(Waits(s, t), t)
  {
    assert |s.pushed| == |s.popped| + |s.items|;
  }

  lemma ApplyWait<T>(s: State<T>, a: Action<T>, t: nat)
    requires Base(s) && Enabled(s, a) && t < |s.tasks|
    ensures |Apply(s, a).tasks| == |Apply(s, a).since| == |s.tasks| && WaitOk(Apply(s, a), t)
  {
    assert WaitOk(s, t);
    if a == Run(t) && s.tasks[t].Trying? && Work(s, MaskOf(s.tasks[t].op)) == 0 { NewWait(s, t); }
  }

  /** Every step keeps order, capacity and what is known of the waits. */
  lemma ApplyBase<T>(s: State<T>, a: Action<T>)
    requires Base(s) && Enabled(s, a)
    ensures Base(Apply(s, a))
  {
    var n := Apply(s, a);
    ApplyFifo(s, a);
    forall t | 0 <= t < |n.tasks| ensures |n.since| == |n.tasks| && WaitOk(n, t) { ApplyWait(s, a, t); }
  }

  lemma Multiple(a: nat, k: nat)
    ensures (a + k * WORD_SIZE) % WORD_SIZE == a % WORD_SIZE
  {
    assert a + k * WORD_SIZE == (a / WORD_SIZE + k) * WORD_SIZE + a % WORD_SIZE;
  }

  /** Two counts give the same word exactly if they differ by a multiple of 2^32. */
  lemma SameWord(a: nat, b: nat)
    requires a <= b
    ensures a % WORD_SIZE == b % WORD_SIZE <==> (b - a) % WORD_SIZE == 0
  {
    if a % WORD_SIZE == b % WORD_SIZE {
      var k := b / WORD_SIZE - a / WORD_SIZE;
      assert b - a == k * WORD_SIZE;
      Multiple(0, k);
    } else if (b - a) % WORD_SIZE == 0 {
      Multiple(a, (b - a) / WORD_SIZE);
    }
  }

  lemma WordParity(a: nat)
    ensures a % WORD_SIZE % 2 == a % 2
  {
    assert a == 2 * (a / WORD_SIZE * (WORD_SIZE / 2)) + a % WORD_SIZE;
  }

  lemma UnaliasedWords<T>(s: State<T>)
    requires Base(s) && Unaliased(s)
    ensures WordsOk(s)
  {
    forall t | 0 <= t < |s.tasks| ensures TaskOk(s, t) {
      assert WaitOk(s, t);
      if Waiting(s.tasks[t]) { SameWord(s.since[t], s.notifies); }
    }
  }

  /** Each push and pop changes both the word and the number of items by one. */
  lemma ItemParity<T>(s: State<T>)
    requires Base(s)
    ensures |s.items| % 2 == Word(s) % 2
  {
    WordParity(s.notifies);
    assert |s.pushed| == |s.popped| + |s.items|;
  }

  /** With room for at most one item the parity of the word tells whether there is one. */
  lemma SmallWords<T>(s: State<T>)
    requires Base(s) && s.capacity <= 1
    ensures WordsOk(s)
  {
    ItemParity(s);
    forall t | 0 <= t < |s.tasks| ensures TaskOk(s, t) {
      assert WaitOk(s, t);
      if Waiting(s.tasks[t]) { WordParity(s.since[t]); }
    }
  }

  /** The kernel puts a task to sleep exactly if the number of notifications since the task read
      the word is a multiple of 2^32. */
  lemma CompareSleeps<T>(s: State<T>, t: nat)
    requires Base(s) && Enabled(s, Compare(t))
    ensures s.since[t] <= s.notifies
    ensures Apply(s, Compare(t)).tasks[t].Sleeping? <==> (s.notifies - s.since[t]) % WORD_SIZE == 0
  {
    assert WaitOk(s, t);
    SameWord(s.since[t], s.notifies);
  }

  /** A step that changes one task's phase but neither the word nor the work. */
  lemma PhaseCovered<T>(s: State<T>, n: State<T>, t: nat, p: Phase<T>, mask: Mask)
    requires Covered(s, mask) && t < |s.tasks| && n.tasks == s.tasks[t := p]
    requires Word(n) == Word(s) && Work(n, mask) == Work(s, mask)
    requires Wakes(s, mask) + One(s.tasks[t], mask, Word(s)) <= Wakes(n, mask) + One(p, mask, Word(s))
             || Work(s, mask) == 0
    requires Asleep(p, mask) ==> Asleep(s.tasks[t], mask) || Work(s, mask) == 0
    ensures Covered(n, mask)
  {
    CountUpdate(s.tasks, t, p, mask, Word(s));
    if SomeAsleep(n, mask) && Work(s, mask) != 0 {
      var u :| 0 <= u < |n.tasks| && Asleep(n.tasks[u], mask);
      assert Asleep(s.tasks[u], mask);
    }
  }

  /** A push or pop that succeeds: work of one kind appears together with a wake for it, work
      of the other kind is done by a task that was awake. */
  lemma SuccessCovered<T>(s: State<T>, n: State<T>, t: nat, mask: Mask)
    requires Covered(s, mask) && WordsOk(n)
    requires t < |s.tasks| && s.tasks[t].Trying? && n.tasks == s.tasks[t := Idle]
    requires var d := if MaskOf(s.tasks[t].op) == mask then -1 else 1;
      Work(n, mask) == Work(s, mask) + d && Wakes(n, mask) == Wakes(s, mask) + if d == 1 then 1 else 0
    ensures Covered(n, mask)
  {
    CountUpdate(s.tasks, t, Idle, mask, Word(s));
    if u :| 0 <= u < |n.tasks| && Unnotified(n.tasks[u], mask, Word(n)) {
      assert TaskOk(n, u);
    } else {
      CountNewWord(n.tasks, mask, Word(s), Word(n));
      if SomeAsleep(n, mask) {
        var u :| 0 <= u < |n.tasks| && Asleep(n.tasks[u], mask);
        assert Asleep(s.tasks[u], mask);
      }
    }
  }

  lemma TryCovered<T>(s: State<T>, t: nat, mask: Mask)
    requires Covered(s, mask) && Fifo(s) && t < |s.tasks| && s.tasks[t].Trying? && WordsOk(Try(s, t))
    ensures Covered(Try(s, t), mask)
  {
    var n := Try(s, t);
    if n.notifies != s.notifies {
      SuccessCovered(s, n, t, mask);
    } else {
      PhaseCovered(s, n, t, n.tasks[t], mask);
    }
  }

  /** Every step of a task or of the kernel keeps the sleepers covered, unless it lets the word
      come back to one that a task waits for although there is something to do. */
  lemma ApplyCovered<T>(s: State<T>, a: Action<T>, mask: Mask)
    requires Covered(s, mask) && Fifo(s) && WordsOk(s) && Enabled(s, a) && WordsOk(Apply(s, a))
    ensures Covered(Apply(s, a), mask)
  {
    var n := Apply(s, a);
    if a.WakeNobody? {
      if SomeAsleep(n, mask) {
        var u :| 0 <= u < |n.tasks| && Asleep(n.tasks[u], mask);
        assert Asleep(s.tasks[u], mask);
      }
    } else if a.Run? && s.tasks[a.t].Trying? {
      TryCovered(s, a.t, mask);
    } else {
      assert TaskOk(s, a.t);
      PhaseCovered(s, n, a.t, n.tasks[a.t], mask);
    }
  }

  // ---------------------------------------------------------------- runs

  /** The states of a run, each the result of an enabled action. */
  ghost predicate IsRun<T>(states: seq<State<T>>, actions: seq<Action<T>>) {
    && |states| == |actions| + 1 && Initial(states[0])
    && (forall i :: 0 <= i < |actions| ==>
          Enabled(states[i], actions[i]) && states[i + 1] == Apply(states[i], actions[i]))
  }

  lemma {:induction false} RunBase<T>(states: seq<State<T>>, actions: seq<Action<T>>, i: nat)
    requires IsRun(states, actions) && i < |states|
    ensures Base(states[i]) && |states[i].tasks| == |states[0].tasks| && states[i].capacity == states[0].capacity
  {
    if i > 0 {
      RunBase(states, actions, i - 1);
      assert states[i - 1 + 1] == Apply(states[i - 1], actions[i - 1]);
      ApplyBase(states[i - 1], actions[i - 1]);
    }
  }

  /** In every run what was popped and what is queued is what was pushed, in order, and the queue
      never holds more than its capacity. */
  lemma RunIsFifo<T>(states: seq<State<T>>, actions: seq<Action<T>>, i: nat)
    requires IsRun(states, actions) && i < |states|
    ensures states[i].popped + states[i].items == states[i].pushed
    ensures |states[i].items| <= states[i].capacity == states[0].capacity
  {
    RunBase(states, actions, i);
  }

  /** Up to the i-th state no word that a task waited for has come back; with room for at most
      one item it may. */
  ghost predicate Harmless<T>(states: seq<State<T>>, i: nat)
    requires i < |states|
  {
    || states[0].capacity <= 1
    || forall j :: 0 <= j <= i ==> Unaliased(states[j])
  }

  /** In particular if each wait spans fewer than 2^32 notifications. */
  lemma ShortWaits<T>(states: seq<State<T>>, actions: seq<Action<T>>, i: nat)
    requires IsRun(states, actions) && i < |states|
    requires forall j, t :: 0 <= j <= i && 0 <= t < |states[j].tasks| && t < |states[j].since| ==>
      Waiting(states[j].tasks[t]) ==> states[j].notifies - states[j].since[t] < WORD_SIZE
    ensures Harmless(states, i)
  {
    forall j | 0 <= j <= i ensures Unaliased(states[j]) {
      RunBase(states, actions, j);
    }
  }

  lemma {:induction false} RunCovered<T>(states: seq<State<T>>, actions: seq<Action<T>>, i: nat)
    requires IsRun(states, actions) && i < |states| && Harmless(states, i)
    ensures WordsOk(states[i]) && Covered(states[i], NonEmpty) && Covered(states[i], NonFull)
  {
    RunBase(states, actions, i);
    if states[0].capacity <= 1 { SmallWords(states[i]); } else { UnaliasedWords(states[i]); }
    if i > 0 {
      RunBase(states, actions, i - 1);
      RunCovered(states, actions, i - 1);
      assert states[i - 1 + 1] == Apply(states[i - 1], actions[i - 1]);
      ApplyCovered(states[i - 1], actions[i - 1], NonEmpty);
      ApplyCovered(states[i - 1], actions[i - 1], NonFull);
    }
  }

  /** No wakeup is lost: a consumer that sleeps leaves at most as many items as there are wakes
      under way for consumers and consumers that will look again; and so for producers. */
  lemma NoLostWakeup<T>(states: seq<State<T>>, actions: seq<Action<T>>, i: nat, t: nat)
    requires IsRun(states, actions) && i < |states| && Harmless(states, i)
    requires t < |states[i].tasks| && states[i].tasks[t].Sleeping?
    ensures var s, mask := states[i], MaskOf(states[i].tasks[t].op);
      Work(s, mask) <= Wakes(s, mask) + AwakeCount(s.tasks, mask, Word(s))
  {
    RunCovered(states, actions, i);
    assert Asleep(states[i].tasks[t], MaskOf(states[i].tasks[t].op));
  }

  /** Nothing is going on: every task is idle or asleep, and no wake is under way. */
  ghost predicate Quiet<T>(s: State<T>) {
    && s.nonEmptyWakes == 0 && s.nonFullWakes == 0
    && forall t :: 0 <= t < |s.tasks| ==> s.tasks[t].Idle? || s.tasks[t].Sleeping?
  }

  lemma {:induction false} NobodyAwake<T>(tasks: seq<Phase<T>>, mask: Mask, word: nat)
    requires forall t :: 0 <= t < |tasks| ==> tasks[t].Idle? || tasks[t].Sleeping?
    ensures AwakeCount(tasks, mask, word) == 0
  {
    if tasks != [] { NobodyAwake(tasks[1..], mask, word); }
  }

  /** When nothing is going on, a sleeping consumer means that the queue is empty and a sleeping
      producer that it is full; with some capacity they never sleep on each other. */
  lemma QuietMeansDone<T>(states: seq<State<T>>, actions: seq<Action<T>>, i: nat, t: nat, u: nat)
    requires IsRun(states, actions) && i < |states| && Harmless(states, i) && Quiet(states[i])
    requires t < |states[i].tasks| && states[i].tasks[t].Sleeping?
    requires u < |states[i].tasks| && states[i].tasks[u].Sleeping?
    ensures states[i].tasks[t].op.Pop? ==> states[i].items == []
    ensures states[i].tasks[t].op.Push? ==> |states[i].items| == states[i].capacity
    ensures states[i].capacity > 0 ==> states[i].tasks[t].op.Pop? == states[i].tasks[u].op.Pop?
  {
    var s := states[i];
    RunBase(states, actions, i);
    NobodyAwake(s.tasks, NonEmpty, Word(s));
    NobodyAwake(s.tasks, NonFull, Word(s));
    NoLostWakeup(states, actions, i, t);
    NoLostWakeup(states, actions, i, u);
  }
}
