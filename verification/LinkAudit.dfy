/** `count_target_inode_links`: the worklist audit of hard links to a build output, with every system call
    free to fail, against the recursive count of the directory tree. */
module LinkAudit {
  import opened Outcomes

  /** A directory tree below the scratch root, each directory's entries in sorted order. */
  datatype Tree = Leaf(dev: int, ino: int, regular: bool) | Dir(dev: int, ino: int, entries: Listing)
  datatype Listing = End | Entry(first: Tree, rest: Listing)

  datatype Inode = Inode(dev: int, ino: int)

  predicate Names(t: Tree, inode: Inode) {
    t.dev == inode.dev && t.ino == inode.ino
  }

  predicate IsRegular(t: Tree) {
    t.Leaf? && t.regular
  }

  /** A count over every entry below a directory with these entries. */
  function Count(entries: Listing, weight: Tree -> int): int {
    match entries
    case End => 0
    case Entry(t, rest) => weight(t) + (if t.Dir? then Count(t.entries, weight) else 0) + Count(rest, weight)
  }

  /** Every entry counts. */
  function Each(): Tree -> int {
    t => 1
  }

  /** Regular entries that name the inode count. */
  function Links(inode: Inode): Tree -> int {
    t => if Names(t, inode) && IsRegular(t) then 1 else 0
  }

  /** Entries of another type that claim the inode's number count. */
  function Odd(inode: Inode): Tree -> int {
    t => if Names(t, inode) && !IsRegular(t) then 1 else 0
  }

  ghost predicate NonNegative(weight: Tree -> int) {
    forall t :: weight(t) >= 0
  }

  lemma {:induction false} CountNonNegative(entries: Listing, weight: Tree -> int)
    requires NonNegative(weight)
    ensures Count(entries, weight) >= 0
  {
    match entries
    case End =>
    case Entry(t, rest) =>
      CountNonNegative(rest, weight);
      if t.Dir? {
        CountNonNegative(t.entries, weight);
      }
  }

  const MAX_TARGET_TREE_ENTRIES := 1_000_000

  // ----- the kernel -----

  /** The calls of the audit; comparing what `fstat` saw with the earlier `stat` counts as one. */
  datatype Call = Dup | Listdir | Stat | Openat | Fstat | Compare | Close

  /** Open descriptors with the directory each one names, and the calls made so far; any call may fail, as `fails`
      decides from its position. */
  datatype Kernel = Kernel(open: map<int, Listing>, next: int, log: seq<Call>, fails: int -> bool) {
    /** Descriptors are numbered upwards. */
    ghost predicate Valid() {
      forall fd :: fd in open ==> fd < next
    }

    /** The next call succeeds. */
    predicate Succeeds() {
      !fails(|log|)
    }

    /** After a call that opens and closes nothing. */
    function Called(call: Call): Kernel {
      this.(log := log + [call])
    }

    /** After `dup` or `openat` of a directory; on success the new descriptor is the old `next`. */
    function Opened(call: Call, entries: Listing): Kernel {
      if Succeeds() then this.(open := open[next := entries], next := next + 1, log := log + [call]) else Called(call)
    }

    /** `close` releases the descriptor even when it reports an error; only an open descriptor can be closed. */
    function Closed(fd: int): Kernel
      requires fd in open
    {
      this.(open := open - {fd}, log := log + [Close])
    }
  }

  /** The same kernel later on. */
  ghost predicate Later(before: Kernel, after: Kernel) {
    before.log <= after.log && before.fails == after.fails
  }

  /** Some call between the two states failed. */
  ghost predicate Fault(before: Kernel, after: Kernel) {
    exists i :: |before.log| <= i < |after.log| && before.fails(i)
  }

  /** Only `close` was called from position `i` on. */
  ghost predicate OnlyCloses(log: seq<Call>, i: int) {
    forall j :: i <= j < |log| && 0 <= j ==> log[j] == Close
  }

  /** The first failure since `before` is that of call `at`; after it there are only closings. */
  ghost predicate FailsAt(before: Kernel, after: Kernel, at: int) {
    && |before.log| <= at < |after.log| && before.fails(at)
    && (forall i :: |before.log| <= i < at ==> !before.fails(i))
    && OnlyCloses(after.log, at + 1)
  }

  // ----- the calls of an audit in which nothing fails -----

  function Size(entries: Listing): nat {
    if entries.End? then 0
    else (if entries.first.Dir? then 2 + Size(entries.first.entries) else 1) + Size(entries.rest)
  }

  ghost function StackSize(stack: seq<Listing>): nat {
    if stack == [] then 0 else StackSize(stack[..|stack| - 1]) + 1 + Size(stack[|stack| - 1])
  }

  lemma StackSizePush(stack: seq<Listing>, entries: Listing)
    ensures StackSize(stack + [entries]) == StackSize(stack) + 1 + Size(entries)
  {
    assert (stack + [entries])[..|stack|] == stack;
  }

  /** An entry of another type that claims the inode's number. */
  predicate IsOdd(t: Tree, inode: Inode) {
    Names(t, inode) && !IsRegular(t)
  }

  /** The calls for all directories on a stack, the last one first, each followed by its own subdirectories, when `n`
      entries have been counted already. */
  ghost function Script(stack: seq<Listing>, n: int, inode: Inode): seq<Call>
    decreases StackSize(stack), 0
  {
    if stack == [] then [] else [Listdir] + Tail(stack[|stack| - 1], stack[..|stack| - 1], n, inode)
  }

  /** The calls for `rest` of one directory, and then for the others on the stack; a refused entry ends them. */
  ghost function Tail(rest: Listing, stack: seq<Listing>, n: int, inode: Inode): seq<Call>
    decreases Size(rest) + StackSize(stack), 1
  {
    match rest
    case End => [Close] + Script(stack, n, inode)
    case Entry(t, others) =>
      if n >= MAX_TARGET_TREE_ENTRIES then []
      else if IsOdd(t, inode) then [Stat]
      else if t.Leaf? then [Stat] + Tail(others, stack, n + 1, inode)
      else
        StackSizePush(stack, t.entries);
        [Stat] + ([Openat] + ([Fstat] + ([Compare] + Tail(others, stack + [t.entries], n + 1, inode))))
  }

  /** The log of an audit in which nothing fails. */
  ghost function FullLog(kernel: Kernel, root: Listing, inode: Inode): seq<Call> {
    kernel.log + ([Dup] + Script([root], 0, inode))
  }

  /** One more call of the script. */
  lemma Advance(log: seq<Call>, call: Call, tail: seq<Call>, full: seq<Call>)
    requires log + ([call] + tail) == full
    ensures (log + [call]) + tail == full && log + [call] <= full
  {
    assert log + ([call] + tail) == (log + [call]) + tail;
  }

  // ----- the worklist -----

  ghost function Elements(s: seq<int>): set<int> {
    set i | 0 <= i < |s| :: s[i]
  }

  ghost predicate Distinct(s: seq<int>) {
    forall i, j :: 0 <= i < j < |s| ==> s[i] != s[j]
  }

  lemma ElementsAppend(s: seq<int>, x: int)
    ensures Elements(s + [x]) == Elements(s) + {x}
    ensures x !in Elements(s) && Distinct(s) ==> Distinct(s + [x])
  {
    var t := s + [x];
    assert forall i :: 0 <= i < |s| ==> t[i] == s[i];
    assert t[|s|] == x;
    forall y | y in Elements(s) + {x} ensures y in Elements(t) {
      if y != x {
        var i :| 0 <= i < |s| && s[i] == y;
        assert t[i] == y;
      }
    }
  }

  lemma ElementsSplit(s: seq<int>)
    requires s != [] && Distinct(s)
    ensures Elements(s) == Elements(s[..|s| - 1]) + {s[|s| - 1]} && s[|s| - 1] !in Elements(s[..|s| - 1])
    ensures Distinct(s[..|s| - 1])
  {
    var front, last := s[..|s| - 1], s[|s| - 1];
    assert s == front + [last];
    ElementsAppend(front, last);
  }

  /** The open descriptors are the caller's, unchanged, and `mine`. */
  ghost predicate Holds(open: map<int, Listing>, base: map<int, Listing>, mine: set<int>) {
    && base.Keys !! mine
    && open.Keys == base.Keys + mine
    && forall fd :: fd in base ==> open[fd] == base[fd]
  }

  lemma HoldsAdd(open: map<int, Listing>, base: map<int, Listing>, mine: set<int>, fd: int, entries: Listing)
    requires Holds(open, base, mine) && fd !in open
    ensures Holds(open[fd := entries], base, mine + {fd}) && fd !in mine
  {
  }

  lemma HoldsRemove(open: map<int, Listing>, base: map<int, Listing>, mine: set<int>, fd: int)
    requires Holds(open, base, mine + {fd}) && fd !in mine
    ensures fd in open && Holds(open - {fd}, base, mine)
  {
  }

  /** The count below all the directories on the worklist. */
  ghost function Pending(open: map<int, Listing>, pending: seq<int>, weight: Tree -> int): int {
    if pending == [] then 0
    else
      var fd := pending[|pending| - 1];
      Pending(open, pending[..|pending| - 1], weight) + (if fd in open then Count(open[fd], weight) else 0)
  }

  lemma {:induction false} PendingNonNegative(open: map<int, Listing>, pending: seq<int>, weight: Tree -> int)
    requires NonNegative(weight)
    ensures Pending(open, pending, weight) >= 0
  {
    if pending != [] {
      PendingNonNegative(open, pending[..|pending| - 1], weight);
      var fd := pending[|pending| - 1];
      if fd in open {
        CountNonNegative(open[fd], weight);
      }
    }
  }

  lemma {:induction false} PendingFrame(a: map<int, Listing>, b: map<int, Listing>, pending: seq<int>,
                                        weight: Tree -> int)
    requires forall fd :: fd in Elements(pending) ==> fd in a && fd in b && a[fd] == b[fd]
    ensures Pending(a, pending, weight) == Pending(b, pending, weight)
  {
    hide Elements, Count;
    if pending != [] {
      var front, last := pending[..|pending| - 1], pending[|pending| - 1];
      assert pending == front + [last];
      ElementsAppend(front, last);
      PendingFrame(a, b, front, weight);
    }
  }

  lemma PendingPush(open: map<int, Listing>, pending: seq<int>, fd: int, entries: Listing, weight: Tree -> int)
    requires Elements(pending) <= open.Keys && fd !in open
    ensures Pending(open[fd := entries], pending + [fd], weight)
         == Pending(open, pending, weight) + Count(entries, weight)
  {
    assert (pending + [fd])[..|pending|] == pending;
    PendingFrame(open, open[fd := entries], pending, weight);
  }

  /** The directories on the worklist. */
  ghost function Stack(open: map<int, Listing>, pending: seq<int>): seq<Listing> {
    if pending == [] then []
    else
      var fd := pending[|pending| - 1];
      Stack(open, pending[..|pending| - 1]) + [if fd in open then open[fd] else End]
  }

  lemma {:induction false} StackFrame(a: map<int, Listing>, b: map<int, Listing>, pending: seq<int>)
    requires forall fd :: fd in Elements(pending) ==> fd in a && fd in b && a[fd] == b[fd]
    ensures Stack(a, pending) == Stack(b, pending)
  {
    hide Elements;
    if pending != [] {
      var front, last := pending[..|pending| - 1], pending[|pending| - 1];
      assert pending == front + [last];
      ElementsAppend(front, last);
      StackFrame(a, b, front);
    }
  }

  lemma StackPush(open: map<int, Listing>, pending: seq<int>, fd: int, entries: Listing)
    requires Elements(pending) <= open.Keys && fd !in open
    ensures Stack(open[fd := entries], pending + [fd]) == Stack(open, pending) + [entries]
  {
    assert (pending + [fd])[..|pending|] == pending;
    StackFrame(open, open[fd := entries], pending);
  }

  /** The handler: close whatever is still on the worklist, ignoring errors. */
  method CloseAll(kernel: Kernel, pending: seq<int>, ghost base: map<int, Listing>, ghost leaked: set<int>)
    returns (k: Kernel)
    requires Distinct(pending) && Elements(pending) !! leaked
    requires Holds(kernel.open, base, Elements(pending) + leaked)
    ensures Holds(k.open, base, leaked) && Later(kernel, k) && OnlyCloses(k.log, |kernel.log|)
  {
    hide Elements, Distinct, Holds;
    k := kernel;
    var rest := pending;
    while rest != []
      invariant Distinct(rest) && Elements(rest) !! leaked
      invariant Holds(k.open, base, Elements(rest) + leaked)
      invariant Later(kernel, k) && OnlyCloses(k.log, |kernel.log|)
    {
      ElementsSplit(rest);
      var fd := rest[|rest| - 1];
      rest := rest[..|rest| - 1];
      assert Elements(rest) + {fd} + leaked == Elements(rest) + leaked + {fd};
      HoldsRemove(k.open, base, Elements(rest) + leaked, fd);
      k := k.Closed(fd);
    }
    NoElements();
    assert {} + leaked == leaked;
  }

  // ----- the audit -----

  /** How the visit of one directory ended: completed, denied by a rule, or cut short by the failure of call `at`,
      which may leave a descriptor behind. */
  datatype Visit = Done | Refused | Faulted(leaked: set<int>, at: int)

  /** The loop variables of the audit. */
  datatype Progress = Progress(pending: seq<int>, entries: int, links: int)

  /** The running counters, plus what is still below the worklist and the `rest` of the directory being read, make up
      the counts of the whole tree; no odd entry has been met. */
  ghost predicate Balanced(p: Progress, open: map<int, Listing>, rest: Listing, root: Listing, inode: Inode) {
    && p.entries + Pending(open, p.pending, Each()) + Count(rest, Each()) == Count(root, Each())
    && p.links + Pending(open, p.pending, Links(inode)) + Count(rest, Links(inode)) == Count(root, Links(inode))
    && Pending(open, p.pending, Odd(inode)) + Count(rest, Odd(inode)) == Count(root, Odd(inode))
  }

  /** The tree is refused: too many entries, or one of another type with the inode's number. */
  predicate TooMuch(root: Listing, inode: Inode) {
    Count(root, Each()) > 1_000_000 || Count(root, Odd(inode)) > 0
  }

  /** The first entry of `rest`, once counted, leaves the balance with its subdirectory still to be added. */
  lemma BalanceEntry(p: Progress, open: map<int, Listing>, rest: Listing, root: Listing, inode: Inode)
    requires rest.Entry? && Balanced(p, open, rest, root, inode)
    ensures p.entries >= MAX_TARGET_TREE_ENTRIES ==> TooMuch(root, inode)
    ensures Names(rest.first, inode) && !IsRegular(rest.first) ==> TooMuch(root, inode)
    ensures rest.first.Leaf? && !Names(rest.first, inode) ==>
      Balanced(p.(entries := p.entries + 1), open, rest.rest, root, inode)
    ensures rest.first.Leaf? && Names(rest.first, inode) && IsRegular(rest.first) ==>
      Balanced(p.(entries := p.entries + 1, links := p.links + 1), open, rest.rest, root, inode)
  {
    hide Pending, Names, IsRegular;
    CountsStay(open, p.pending, rest.rest, Each());
    CountsStay(open, p.pending, rest.rest, Odd(inode));
    if rest.first.Dir? {
      CountNonNegative(rest.first.entries, Each());
      CountNonNegative(rest.first.entries, Odd(inode));
    }
  }

  lemma CountsStay(open: map<int, Listing>, pending: seq<int>, rest: Listing, weight: Tree -> int)
    requires NonNegative(weight)
    ensures Pending(open, pending, weight) >= 0 && Count(rest, weight) >= 0
  {
    PendingNonNegative(open, pending, weight);
    CountNonNegative(rest, weight);
  }

  /** A subdirectory put on the worklist keeps the balance. */
  lemma BalancePush(p: Progress, open: map<int, Listing>, rest: Listing, root: Listing, inode: Inode, fd: int)
    requires rest.Entry? && rest.first.Dir? && !Names(rest.first, inode)
    requires Balanced(p.(entries := p.entries - 1), open, rest, root, inode)
    requires Elements(p.pending) <= open.Keys && fd !in open
    ensures Balanced(p.(pending := p.pending + [fd]), open[fd := rest.first.entries], rest.rest, root, inode)
  {
    hide Pending, Names, IsRegular, Elements;
    PendingPush(open, p.pending, fd, rest.first.entries, Each());
    PendingPush(open, p.pending, fd, rest.first.entries, Links(inode));
    PendingPush(open, p.pending, fd, rest.first.entries, Odd(inode));
  }

  /** Taking a directory off the worklist keeps the balance. */
  lemma BalancePop(p: Progress, open: map<int, Listing>, root: Listing, inode: Inode)
    requires p.pending != [] && p.pending[|p.pending| - 1] in open && Balanced(p, open, End, root, inode)
    ensures Balanced(p.(pending := p.pending[..|p.pending| - 1]), open, open[p.pending[|p.pending| - 1]], root, inode)
  {
  }

  lemma BalanceFrame(p: Progress, a: map<int, Listing>, b: map<int, Listing>, rest: Listing, root: Listing,
                     inode: Inode)
    requires Balanced(p, a, rest, root, inode)
    requires forall fd :: fd in Elements(p.pending) ==> fd in a && fd in b && a[fd] == b[fd]
    ensures Balanced(p, b, rest, root, inode)
  {
    hide Pending, Count, Elements;
    PendingFrame(a, b, p.pending, Each());
    PendingFrame(a, b, p.pending, Links(inode));
    PendingFrame(a, b, p.pending, Odd(inode));
  }

  function Leaked(v: Visit): set<int> {
    if v.Faulted? then v.leaked else {}
  }

  /** Which calls failed during a visit, and what that left behind. */
  ghost predicate Ends(before: Kernel, after: Kernel, v: Visit) {
    && Later(before, after)
    && match v
       case Faulted(leaked, at) =>
         FailsAt(before, after, at) && |leaked| <= 1 && (leaked != {} <==> after.log[at] == Fstat)
       case _ => !Fault(before, after)
  }

  /** The descriptors held after a visit: the worklist, the directory being read, and what leaked. */
  ghost predicate Accounts(k: Kernel, base: map<int, Listing>, p: Progress, directory: int, leaked: set<int>) {
    && k.Valid()
    && Distinct(p.pending) && directory !in Elements(p.pending) && directory !in leaked && Elements(p.pending) !! leaked
    && Holds(k.open, base, Elements(p.pending) + {directory} + leaked)
  }

  /** The worklist and the directory being read are what the audit holds. */
  ghost predicate Ready(k: Kernel, base: map<int, Listing>, p: Progress, directory: int) {
    Accounts(k, base, p, directory, {})
  }

  lemma ReadyHolds(k: Kernel, base: map<int, Listing>, p: Progress, directory: int)
    requires Ready(k, base, p, directory)
    ensures k.Valid() && Distinct(p.pending) && directory !in Elements(p.pending)
    ensures Holds(k.open, base, Elements(p.pending) + {directory})
  {
    hide Elements, Distinct, Holds;
    assert Elements(p.pending) + {directory} + {} == Elements(p.pending) + {directory};
  }

  lemma HoldsReady(k: Kernel, base: map<int, Listing>, p: Progress, directory: int)
    requires k.Valid() && Distinct(p.pending) && directory !in Elements(p.pending)
    requires Holds(k.open, base, Elements(p.pending) + {directory})
    ensures Ready(k, base, p, directory)
  {
    hide Elements, Distinct, Holds;
    assert Elements(p.pending) + {directory} + {} == Elements(p.pending) + {directory};
  }

  /** Losing track of the opened child. */
  lemma ChildLeaks(k: Kernel, entries: Listing, base: map<int, Listing>, p: Progress, directory: int, after: Kernel)
    requires Ready(k, base, p, directory) && k.Succeeds()
    requires after.open == k.Opened(Openat, entries).open && after.next == k.next + 1
    ensures Accounts(after, base, p, directory, {k.next})
  {
    hide Elements, Distinct, Holds;
    ReadyHolds(k, base, p, directory);
    HoldsAdd(k.open, base, Elements(p.pending) + {directory}, k.next, entries);
  }

  /** Closing the opened child again. */
  lemma ChildCloses(k: Kernel, entries: Listing, base: map<int, Listing>, p: Progress, directory: int, after: Kernel)
    requires Ready(k, base, p, directory) && k.Succeeds()
    requires after.open == k.Opened(Openat, entries).open - {k.next} && after.next == k.next + 1
    ensures Ready(after, base, p, directory)
  {
    hide Elements, Distinct, Holds;
    ReadyHolds(k, base, p, directory);
    var mine := Elements(p.pending) + {directory};
    HoldsAdd(k.open, base, mine, k.next, entries);
    HoldsRemove(k.Opened(Openat, entries).open, base, mine, k.next);
    HoldsReady(after, base, p, directory);
  }

  /** Putting the opened child on the worklist. */
  lemma ChildQueues(k: Kernel, entries: Listing, base: map<int, Listing>, p: Progress, directory: int, after: Kernel)
    requires Ready(k, base, p, directory) && k.Succeeds()
    requires after.open == k.Opened(Openat, entries).open && after.next == k.next + 1
    ensures k.next !in k.open && Elements(p.pending) <= k.open.Keys
    ensures Ready(after, base, p.(pending := p.pending + [k.next]), directory)
  {
    hide Elements, Distinct, Holds;
    ReadyHolds(k, base, p, directory);
    var mine := Elements(p.pending) + {directory};
    MineIsOpen(k.open, base, mine);
    HoldsAdd(k.open, base, mine, k.next, entries);
    ElementsAppend(p.pending, k.next);
    assert Elements(p.pending + [k.next]) + {directory} == mine + {k.next};
    HoldsReady(after, base, p.(pending := p.pending + [k.next]), directory);
  }

  /** Calls that open and close nothing. */
  lemma ReadyStays(k: Kernel, base: map<int, Listing>, p: Progress, directory: int, after: Kernel, q: Progress)
    requires Ready(k, base, p, directory) && after.open == k.open && after.next == k.next && q.pending == p.pending
    ensures Ready(after, base, q, directory)
  {
    hide Elements, Distinct, Holds;
  }

  lemma MineIsOpen(open: map<int, Listing>, base: map<int, Listing>, mine: set<int>)
    requires Holds(open, base, mine)
    ensures mine <= open.Keys
  {
  }

  /** The first failure: nothing failed before, and only closings follow. */
  lemma FailsHere(early: Kernel, before: Kernel, call: Call, after: Kernel)
    requires Later(early, before) && !Fault(early, before) && !before.Succeeds()
    requires after.fails == before.fails && before.log + [call] <= after.log && OnlyCloses(after.log, |before.log| + 1)
    ensures FailsAt(early, after, |before.log|) && after.log[|before.log|] == call && Later(early, after)
  {
  }

  lemma SucceedsHere(early: Kernel, before: Kernel, call: Call, after: Kernel)
    requires Later(early, before) && !Fault(early, before) && before.Succeeds()
    requires after.fails == before.fails && after.log == before.log + [call]
    ensures !Fault(early, after) && Later(early, after)
  {
  }

  /** Opening a subdirectory and putting it on the worklist. */
  method PushChild(kernel: Kernel, entries: Listing, start: Progress, ghost base: map<int, Listing>,
                   ghost directory: int) returns (v: Visit, p: Progress, k: Kernel)
    requires Ready(kernel, base, start, directory)
    ensures Accounts(k, base, p, directory, Leaked(v)) && Ends(kernel, k, v) && !v.Refused?
    ensures Leaked(v) == if kernel.Succeeds() && !kernel.Opened(Openat, entries).Succeeds() then {kernel.next} else {}
    ensures v.Faulted? ==> k.log[..v.at + 1] <= kernel.log + [Openat, Fstat, Compare]
    ensures v.Done? ==>
      && kernel.next !in kernel.open && Elements(start.pending) <= kernel.open.Keys
      && p == start.(pending := start.pending + [kernel.next]) && k.open == kernel.open[kernel.next := entries]
      && k.log == kernel.log + [Openat, Fstat, Compare]
  {
    hide Elements, Distinct, Holds, Accounts, Fault, FailsAt, Later, OnlyCloses;
    p := start;
    NothingYet(kernel);
    ghost var all := kernel.log + [Openat, Fstat, Compare];
    var holding := kernel.Opened(Openat, entries);
    if !kernel.Succeeds() {
      NoCloses(holding.log);
      FailsHere(kernel, kernel, Openat, holding);
      ReadyStays(kernel, base, p, directory, holding, p);
      assert holding.log[..|kernel.log| + 1] == holding.log;
      return Faulted({}, |kernel.log|), p, holding;
    }
    SucceedsHere(kernel, kernel, Openat, holding);
    var examined := holding.Called(Fstat);
    if !holding.Succeeds() {
      NoCloses(examined.log);
      FailsHere(kernel, holding, Fstat, examined);
      ChildLeaks(kernel, entries, base, p, directory, examined);
      assert examined.log[..|holding.log| + 1] == examined.log;
      return Faulted({kernel.next}, |holding.log|), p, examined;
    }
    SucceedsHere(kernel, holding, Fstat, examined);
    k := examined.Called(Compare);
    if !examined.Succeeds() {
      k := k.Closed(kernel.next);
      OneClose(examined.log + [Compare]);
      FailsHere(kernel, examined, Compare, k);
      ChildCloses(kernel, entries, base, p, directory, k);
      assert k.log[..|examined.log| + 1] == all;
      return Faulted({}, |examined.log|), p, k;
    }
    SucceedsHere(kernel, examined, Compare, k);
    ChildQueues(kernel, entries, base, p, directory, k);
    p := p.(pending := p.pending + [kernel.next]);
    return Done, p, k;
  }

  lemma NothingYet(k: Kernel)
    ensures Later(k, k) && !Fault(k, k)
  {
  }

  lemma NoCloses(log: seq<Call>)
    ensures OnlyCloses(log, |log|)
  {
  }

  lemma OneClose(log: seq<Call>)
    ensures OnlyCloses(log + [Close], |log|)
  {
  }

  lemma EndsWiden(early: Kernel, before: Kernel, after: Kernel, v: Visit)
    requires Later(early, before) && !Fault(early, before) && Ends(before, after, v)
    ensures Ends(early, after, v)
  {
  }

  /** The script position before a directory entry, after it, or in the middle of it. */
  lemma EntryAdvances(log: seq<Call>, rest: Listing, stack: seq<Listing>, n: int, inode: Inode, full: seq<Call>)
    requires rest.Entry? && log + Tail(rest, stack, n, inode) == full
    ensures n >= MAX_TARGET_TREE_ENTRIES ==> log == full
    ensures n < MAX_TARGET_TREE_ENTRIES ==> log + [Stat] <= full
    ensures n < MAX_TARGET_TREE_ENTRIES && IsOdd(rest.first, inode) ==> log + [Stat] == full
    ensures n < MAX_TARGET_TREE_ENTRIES && !IsOdd(rest.first, inode) && rest.first.Leaf? ==>
      (log + [Stat]) + Tail(rest.rest, stack, n + 1, inode) == full
    ensures n < MAX_TARGET_TREE_ENTRIES && !IsOdd(rest.first, inode) && rest.first.Dir? ==>
      && log + [Stat] + [Openat, Fstat, Compare] <= full
      && (log + [Stat] + [Openat, Fstat, Compare]) + Tail(rest.rest, stack + [rest.first.entries], n + 1, inode) == full
  {
    hide IsOdd, Script;
    if n < MAX_TARGET_TREE_ENTRIES && !IsOdd(rest.first, inode) {
      if rest.first.Leaf? {
        Advance(log, Stat, Tail(rest.rest, stack, n + 1, inode), full);
      } else {
        SubdirectoryAdvances(log, Tail(rest.rest, stack + [rest.first.entries], n + 1, inode), full);
      }
    }
  }

  lemma SubdirectoryAdvances(log: seq<Call>, after: seq<Call>, full: seq<Call>)
    requires log + ([Stat] + ([Openat] + ([Fstat] + ([Compare] + after)))) == full
    ensures log + [Stat] <= full && log + [Stat] + [Openat, Fstat, Compare] <= full
    ensures (log + [Stat] + [Openat, Fstat, Compare]) + after == full
  {
    Advance(log, Stat, [Openat] + ([Fstat] + ([Compare] + after)), full);
    Advance(log + [Stat], Openat, [Fstat] + ([Compare] + after), full);
    Advance(log + [Stat] + [Openat], Fstat, [Compare] + after, full);
    Advance(log + [Stat] + [Openat] + [Fstat], Compare, after, full);
    assert log + [Stat] + [Openat] + [Fstat] + [Compare] == log + [Stat] + [Openat, Fstat, Compare];
  }

  lemma PrefixIsTransitive(a: seq<Call>, b: seq<Call>, c: seq<Call>)
    requires a <= b && b <= c
    ensures a <= c
  {
  }

  /** The loop over one directory's entries. */
  method VisitEntries(kernel: Kernel, entries: Listing, start: Progress, inode: Inode, ghost root: Listing,
                      ghost full: seq<Call>, ghost base: map<int, Listing>, ghost directory: int)
    returns (v: Visit, p: Progress, k: Kernel)
    requires Ready(kernel, base, start, directory) && start.entries <= MAX_TARGET_TREE_ENTRIES
    requires Balanced(start, kernel.open, entries, root, inode)
    requires kernel.log + Tail(entries, Stack(kernel.open, start.pending), start.entries, inode) == full
    ensures Accounts(k, base, p, directory, Leaked(v)) && Ends(kernel, k, v)
    ensures v.Done? ==>
      && p.entries <= MAX_TARGET_TREE_ENTRIES && Balanced(p, k.open, End, root, inode)
      && k.log + Tail(End, Stack(k.open, p.pending), p.entries, inode) == full
    ensures v.Refused? ==> TooMuch(root, inode) && k.log == full
    ensures v.Faulted? ==> k.log[..v.at + 1] <= full
  {
    hide Elements, Distinct, Holds, Accounts, Balanced, Fault, FailsAt, Later, OnlyCloses, TooMuch, Names, IsRegular;
    hide Links, Tail, Script, Stack;
    p, k := start, kernel;
    NothingYet(kernel);
    var rest := entries;
    while rest.Entry?
      invariant Ready(k, base, p, directory) && Later(kernel, k) && !Fault(kernel, k)
      invariant p.entries <= MAX_TARGET_TREE_ENTRIES && Balanced(p, k.open, rest, root, inode)
      invariant k.log + Tail(rest, Stack(k.open, p.pending), p.entries, inode) == full
      decreases rest
    {
      var t := rest.first;
      BalanceEntry(p, k.open, rest, root, inode);
      EntryAdvances(k.log, rest, Stack(k.open, p.pending), p.entries, inode, full);
      ghost var q := p;
      p := p.(entries := p.entries + 1);
      ReadyStays(k, base, q, directory, k, p);
      if p.entries > MAX_TARGET_TREE_ENTRIES {
        return Refused, p, k;
      }
      var before := k;
      k := before.Called(Stat);
      ReadyStays(before, base, p, directory, k, p);
      if !before.Succeeds() {
        NoCloses(k.log);
        FailsHere(kernel, before, Stat, k);
        assert k.log[..|before.log| + 1] == k.log;
        return Faulted({}, |before.log|), p, k;
      }
      SucceedsHere(kernel, before, Stat, k);
      if Names(t, inode) {
        if !IsRegular(t) {
          return Refused, p, k;
        }
        q := p;
        p := p.(links := p.links + 1);
        ReadyStays(k, base, q, directory, k, p);
      }
      if t.Dir? {
        before := k;
        DirectoryIsNotRegular(t);
        q := p;
        v, p, k := PushChild(before, t.entries, p, base, directory);
        EndsWiden(kernel, before, k, v);
        if v.Faulted? {
          FailedInRange(kernel, k, v.at);
          PrefixIsTransitive(k.log[..v.at + 1], before.log + [Openat, Fstat, Compare], full);
          return v, p, k;
        }
        BalancePush(q, before.open, rest, root, inode, before.next);
        StackPush(before.open, q.pending, before.next, t.entries);
      }
      rest := rest.rest;
    }
    return Done, p, k;
  }

  lemma FailedInRange(before: Kernel, after: Kernel, at: int)
    requires FailsAt(before, after, at)
    ensures 0 <= at < |after.log|
  {
  }

  lemma DirectoryIsNotRegular(t: Tree)
    requires t.Dir?
    ensures !IsRegular(t)
  {
  }

  /** How an audit ended: after the whole script, denied by a rule, or at the first failing call. */
  ghost predicate Audited(kernel: Kernel, root: Listing, inode: Inode, r: Outcome<int>, k: Kernel, v: Visit) {
    && Later(kernel, k)
    && match v
       case Done =>
         && r == Accepted(Count(root, Links(inode))) && !TooMuch(root, inode)
         && k.log == FullLog(kernel, root, inode) && !Fault(kernel, k)
       case Refused =>
         && r.Denied? && TooMuch(root, inode) && FullLog(kernel, root, inode) <= k.log
         && NoFailure(kernel, |FullLog(kernel, root, inode)|) && OnlyCloses(k.log, |FullLog(kernel, root, inode)|)
       case Faulted(leaked, at) =>
         && r.Denied? && FailsAt(kernel, k, at) && k.log[..at + 1] <= FullLog(kernel, root, inode)
         && |leaked| <= 1 && (leaked != {} <==> k.log[at] == Fstat)
  }

  /** No call before position `i` failed. */
  ghost predicate NoFailure(kernel: Kernel, i: int) {
    forall j :: |kernel.log| <= j < i ==> !kernel.fails(j)
  }

  /** The state between two directories of the worklist. */
  ghost predicate Between(early: Kernel, k: Kernel, p: Progress, root: Listing, inode: Inode) {
    && k.Valid() && Later(early, k) && !Fault(early, k)
    && Distinct(p.pending) && Holds(k.open, early.open, Elements(p.pending))
    && p.entries <= MAX_TARGET_TREE_ENTRIES && Balanced(p, k.open, End, root, inode)
    && k.log + Script(Stack(k.open, p.pending), p.entries, inode) == FullLog(early, root, inode)
  }

  /** One directory of the worklist, from the `pop` to its `close`. */
  method AuditDirectory(ghost early: Kernel, kernel: Kernel, start: Progress, ghost root: Listing, inode: Inode)
    returns (v: Visit, p: Progress, k: Kernel)
    requires Between(early, kernel, start, root, inode) && start.pending != []
    ensures v.Done? ==> Between(early, k, p, root, inode) && |kernel.log| < |k.log|
    ensures !v.Done? ==> Audited(early, root, inode, Denied, k, v) && Holds(k.open, early.open, Leaked(v))
  {
    hide Elements, Distinct, Holds, Accounts, Balanced, Fault, FailsAt, Later, OnlyCloses, TooMuch, Tail, Stack, Script;
    hide Audited;
    ghost var base, full := early.open, FullLog(early, root, inode);
    TakeLast(kernel, base, start);
    var directory := start.pending[|start.pending| - 1];
    var entries := kernel.open[directory];
    BalancePop(start, kernel.open, root, inode);
    StackPop(kernel.open, start.pending, start.entries, inode, kernel.log, full);
    p := start.(pending := start.pending[..|start.pending| - 1]);
    var listed := kernel.Called(Listdir);
    ReadyStays(kernel, base, p, directory, listed, p);
    if !kernel.Succeeds() {
      NoCloses(listed.log);
      FailsHere(early, kernel, Listdir, listed);
      assert listed.log[..|kernel.log| + 1] == listed.log;
      v := Faulted({}, |kernel.log|);
      k := Abandon(early, listed, base, p, directory, v, root, inode);
      return;
    }
    SucceedsHere(early, kernel, Listdir, listed);
    v, p, k := VisitEntries(listed, entries, p, inode, root, full, base, directory);
    EndsWiden(early, listed, k, v);
    if !v.Done? {
      k := Abandon(early, k, base, p, directory, v, root, inode);
      return;
    }
    Grows(listed, k);
    v, k := CloseDirectory(early, k, p, directory, root, inode);
  }

  lemma Grows(before: Kernel, after: Kernel)
    requires Later(before, after)
    ensures |before.log| <= |after.log|
  {
  }

  /** The `close` after a directory. */
  method CloseDirectory(ghost early: Kernel, kernel: Kernel, p: Progress, directory: int, ghost root: Listing,
                        ghost inode: Inode) returns (v: Visit, k: Kernel)
    requires Ready(kernel, early.open, p, directory) && Later(early, kernel) && !Fault(early, kernel)
    requires p.entries <= MAX_TARGET_TREE_ENTRIES && Balanced(p, kernel.open, End, root, inode)
    requires kernel.log + Tail(End, Stack(kernel.open, p.pending), p.entries, inode) == FullLog(early, root, inode)
    ensures v.Done? ==> Between(early, k, p, root, inode) && |kernel.log| < |k.log|
    ensures !v.Done? ==> Audited(early, root, inode, Denied, k, v) && Holds(k.open, early.open, Leaked(v))
  {
    hide Elements, Distinct, Holds, Accounts, Balanced, Fault, FailsAt, Later, OnlyCloses, TooMuch, Tail, Stack, Script;
    hide Audited;
    ghost var full := FullLog(early, root, inode);
    ReleaseDirectory(kernel, early.open, p, directory);
    TailEnd(Stack(kernel.open, p.pending), p.entries, inode);
    Advance(kernel.log, Close, Script(Stack(kernel.open, p.pending), p.entries, inode), full);
    k := kernel.Closed(directory);
    if !kernel.Succeeds() {
      k := CloseFailed(early, kernel, k, early.open, p, root, inode);
      return Faulted({}, |kernel.log|), k;
    }
    SucceedsHere(early, kernel, Close, k);
    BalanceFrame(p, kernel.open, k.open, End, root, inode);
    StackFrame(kernel.open, k.open, p.pending);
    return Done, k;
  }

  /** The worklist loop. */
  method Audit(kernel: Kernel, root: Listing, inode: Inode) returns (r: Outcome<int>, k: Kernel, v: Visit)
    requires kernel.Valid()
    ensures Audited(kernel, root, inode, r, k, v) && Holds(k.open, kernel.open, Leaked(v))
  {
    hide Elements, Distinct, Holds, Balanced, Fault, FailsAt, Later, OnlyCloses, TooMuch, Stack, Script, NoFailure;
    ghost var full := FullLog(kernel, root, inode);
    NothingYet(kernel);
    HoldsNothing(kernel.open);
    Advance(kernel.log, Dup, Script([root], 0, inode), full);
    k := kernel.Opened(Dup, root);
    if !kernel.Succeeds() {
      NoCloses(k.log);
      FailsHere(kernel, kernel, Dup, k);
      assert k.log[..|kernel.log| + 1] == k.log;
      return Denied, k, Faulted({}, |kernel.log|);
    }
    SucceedsHere(kernel, kernel, Dup, k);
    var p := Progress([kernel.next], 0, 0);
    Started(kernel.open, kernel.next, root, inode);
    while p.pending != []
      invariant Between(kernel, k, p, root, inode)
      decreases |full| - |k.log|
    {
      var step;
      step, p, k := AuditDirectory(kernel, k, p, root, inode);
      if !step.Done? {
        return Denied, k, step;
      }
    }
    NoElements();
    NothingLeft(k.open, k.log, p.entries, inode);
    Finished(p, k.open, root, inode);
    return Accepted(p.links), k, Done;
  }

  lemma NothingLeft(open: map<int, Listing>, log: seq<Call>, n: int, inode: Inode)
    ensures log + Script(Stack(open, []), n, inode) == log
  {
  }

  lemma TailEnd(stack: seq<Listing>, n: int, inode: Inode)
    ensures Tail(End, stack, n, inode) == [Close] + Script(stack, n, inode)
  {
  }

  lemma StackPop(open: map<int, Listing>, pending: seq<int>, n: int, inode: Inode, log: seq<Call>, full: seq<Call>)
    requires pending != [] && pending[|pending| - 1] in open && log + Script(Stack(open, pending), n, inode) == full
    ensures log + [Listdir] <= full
    ensures
      var front, last := Stack(open, pending[..|pending| - 1]), open[pending[|pending| - 1]];
      (log + [Listdir]) + Tail(last, front, n, inode) == full
  {
    hide Tail;
    var front, last := Stack(open, pending[..|pending| - 1]), open[pending[|pending| - 1]];
    var stack := Stack(open, pending);
    assert stack == front + [last] && stack[..|stack| - 1] == front;
    Advance(log, Listdir, Tail(last, front, n, inode), full);
  }

  /** The last directory on the worklist becomes the one being read. */
  lemma TakeLast(k: Kernel, base: map<int, Listing>, p: Progress)
    requires k.Valid() && p.pending != [] && Distinct(p.pending) && Holds(k.open, base, Elements(p.pending))
    ensures p.pending[|p.pending| - 1] in k.open
    ensures Ready(k, base, p.(pending := p.pending[..|p.pending| - 1]), p.pending[|p.pending| - 1])
  {
    hide Elements, Distinct, Holds;
    ElementsSplit(p.pending);
    MineIsOpen(k.open, base, Elements(p.pending));
    assert p.pending[|p.pending| - 1] in Elements(p.pending);
    HoldsReady(k, base, p.(pending := p.pending[..|p.pending| - 1]), p.pending[|p.pending| - 1]);
  }

  /** The directory being read can be closed, which leaves the worklist. */
  lemma ReleaseDirectory(k: Kernel, base: map<int, Listing>, p: Progress, directory: int)
    requires Ready(k, base, p, directory)
    ensures directory in k.open && k.Closed(directory).Valid()
    ensures Distinct(p.pending) && Holds(k.open - {directory}, base, Elements(p.pending))
    ensures forall fd :: fd in Elements(p.pending) ==> fd in k.open && fd in k.open - {directory}
  {
    hide Elements, Distinct, Holds;
    ReadyHolds(k, base, p, directory);
    HoldsRemove(k.open, base, Elements(p.pending), directory);
    MineIsOpen(k.open - {directory}, base, Elements(p.pending));
  }

  lemma Finished(p: Progress, open: map<int, Listing>, root: Listing, inode: Inode)
    requires p.pending == [] && Balanced(p, open, End, root, inode) && p.entries <= MAX_TARGET_TREE_ENTRIES
    ensures p.links == Count(root, Links(inode)) && !TooMuch(root, inode)
  {
  }

  /** Leaving the audit early: the directory being read and the worklist are closed. */
  method Abandon(ghost early: Kernel, kernel: Kernel, ghost base: map<int, Listing>, p: Progress, directory: int,
                 ghost v: Visit, ghost root: Listing, ghost inode: Inode) returns (k: Kernel)
    requires Accounts(kernel, base, p, directory, Leaked(v)) && Ends(early, kernel, v) && !v.Done?
    requires v.Refused? ==> TooMuch(root, inode) && kernel.log == FullLog(early, root, inode)
    requires v.Faulted? ==> kernel.log[..v.at + 1] <= FullLog(early, root, inode)
    ensures Holds(k.open, base, Leaked(v)) && Audited(early, root, inode, Denied, k, v)
  {
    hide Elements, Distinct, Holds, TooMuch, Count, FullLog;
    ghost var mine := Elements(p.pending) + Leaked(v);
    assert Elements(p.pending) + {directory} + Leaked(v) == mine + {directory};
    HoldsRemove(kernel.open, base, mine, directory);
    var closing := kernel.Closed(directory);
    k := CloseAll(closing, p.pending, base, Leaked(v));
    ClosesAfter(kernel.log, k.log);
    AbandonedAudit(early, kernel, k, root, inode, v);
  }

  lemma ClosesAfter(log: seq<Call>, after: seq<Call>)
    requires log + [Close] <= after && OnlyCloses(after, |log| + 1)
    ensures OnlyCloses(after, |log|) && log <= after
  {
  }

  lemma AbandonedAudit(early: Kernel, kernel: Kernel, k: Kernel, root: Listing, inode: Inode, v: Visit)
    requires Ends(early, kernel, v) && !v.Done?
    requires v.Refused? ==> TooMuch(root, inode) && kernel.log == FullLog(early, root, inode)
    requires v.Faulted? ==> kernel.log[..v.at + 1] <= FullLog(early, root, inode)
    requires Later(kernel, k) && OnlyCloses(k.log, |kernel.log|)
    ensures Audited(early, root, inode, Denied, k, v)
  {
    hide TooMuch, Count, FullLog;
    if v.Faulted? {
      assert k.log[..v.at + 1] == kernel.log[..v.at + 1];
      assert forall j :: v.at + 1 <= j < |kernel.log| ==> k.log[j] == kernel.log[j];
    } else {
      assert NoFailure(early, |kernel.log|);
    }
  }

  /** The directory's own `close` failed: the worklist is closed. */
  method CloseFailed(ghost early: Kernel, ghost before: Kernel, kernel: Kernel, ghost base: map<int, Listing>,
                     p: Progress, ghost root: Listing, ghost inode: Inode) returns (k: Kernel)
    requires Distinct(p.pending) && Holds(kernel.open, base, Elements(p.pending))
    requires Later(early, before) && !Fault(early, before) && !before.Succeeds()
    requires kernel.fails == before.fails && kernel.log == before.log + [Close]
    requires kernel.log <= FullLog(early, root, inode)
    ensures Holds(k.open, base, {}) && Audited(early, root, inode, Denied, k, Faulted({}, |before.log|))
  {
    hide Elements, Distinct, Holds, TooMuch, Count, FullLog, Fault, FailsAt, OnlyCloses;
    assert Elements(p.pending) + {} == Elements(p.pending);
    k := CloseAll(kernel, p.pending, base, {});
    FailsHere(early, before, Close, k);
    assert k.log[..|before.log| + 1] == kernel.log;
  }

  lemma NoElements()
    ensures Elements([]) == {}
  {
  }

  lemma HoldsNothing(base: map<int, Listing>)
    ensures Holds(base, base, {})
  {
  }

  /** The worklist of the audit at its start. */
  lemma Started(base: map<int, Listing>, fd: int, root: Listing, inode: Inode)
    requires fd !in base
    ensures Distinct([fd]) && Holds(base[fd := root], base, Elements([fd]))
    ensures Balanced(Progress([fd], 0, 0), base[fd := root], End, root, inode)
    ensures Stack(base[fd := root], [fd]) == [root]
  {
    hide Count;
    NoElements();
    ElementsAppend([], fd);
    assert [] + [fd] == [fd];
    PendingPush(base, [], fd, root, Each());
    PendingPush(base, [], fd, root, Links(inode));
    PendingPush(base, [], fd, root, Odd(inode));
    StackPush(base, [], fd, root);
    NothingCounted(Each());
    NothingCounted(Links(inode));
    NothingCounted(Odd(inode));
  }

  lemma NothingCounted(weight: Tree -> int)
    ensures Count(End, weight) == 0
  {
  }

  // ----- the audit's contract -----

  /** The first call of the script to fail is call `i`. */
  ghost predicate FirstFailure(kernel: Kernel, full: seq<Call>, i: int) {
    |kernel.log| <= i < |full| && kernel.fails(i) && NoFailure(kernel, i)
  }

  /** The first failing call of the script is the `fstat` of a subdirectory just opened. */
  ghost predicate FstatFailsFirst(kernel: Kernel, root: Listing, inode: Inode) {
    var full := FullLog(kernel, root, inode);
    exists i :: FirstFailure(kernel, full, i) && full[i] == Fstat
  }

  /** `count_target_inode_links` on the scratch directory with these entries.  It returns the recursive count, unless
      the tree is too large, an entry of another type claims the inode, or a call of the script fails.  The descriptors
      open afterwards are the caller's, and one more exactly when the first call of the script to fail is an
      `fstat`. */
  method CountLinks(kernel: Kernel, root: Listing, inode: Inode)
    returns (r: Outcome<int>, k: Kernel, ghost leaked: set<int>)
    requires kernel.Valid()
    ensures r.Accepted? <==> !TooMuch(root, inode) && NoFailure(kernel, |FullLog(kernel, root, inode)|)
    ensures r.Accepted? <==> !TooMuch(root, inode) && !Fault(kernel, k)
    ensures r.Accepted? ==> r.value == Count(root, Links(inode)) && k.log == FullLog(kernel, root, inode)
    ensures Later(kernel, k) && Holds(k.open, kernel.open, leaked) && |leaked| <= 1
    ensures leaked != {} <==> FstatFailsFirst(kernel, root, inode)
    ensures leaked != {} <==> exists i :: FailsAt(kernel, k, i) && k.log[i] == Fstat
  {
    hide Holds, TooMuch, Count, FullLog;
    var v;
    r, k, v := Audit(kernel, root, inode);
    leaked := Leaked(v);
    LeakIff(kernel, root, inode, r, k, v);
  }

  lemma LeakIff(kernel: Kernel, root: Listing, inode: Inode, r: Outcome<int>, k: Kernel, v: Visit)
    requires Audited(kernel, root, inode, r, k, v)
    ensures r.Accepted? <==> !TooMuch(root, inode) && NoFailure(kernel, |FullLog(kernel, root, inode)|)
    ensures r.Accepted? <==> !TooMuch(root, inode) && !Fault(kernel, k)
    ensures Leaked(v) != {} <==> FstatFailsFirst(kernel, root, inode)
    ensures Leaked(v) != {} <==> exists i :: FailsAt(kernel, k, i) && k.log[i] == Fstat
  {
    hide TooMuch, Count, FullLog;
    var full := FullLog(kernel, root, inode);
    if v.Faulted? {
      assert full[v.at] == k.log[v.at] by {
        assert full[v.at] == k.log[..v.at + 1][v.at];
      }
      assert FirstFailure(kernel, full, v.at);
      forall i | FailsAt(kernel, k, i) || FirstFailure(kernel, full, i) ensures i == v.at {
      }
    }
  }

  // ----- what an exact count means -----

  /** Some entry in these directories names the inode. */
  predicate NamedBelow(entries: Listing, inode: Inode) {
    match entries
    case End => false
    case Entry(t, rest) =>
      Inode(t.dev, t.ino) == inode || (t.Dir? && NamedBelow(t.entries, inode)) || NamedBelow(rest, inode)
  }

  lemma {:induction false} UncountedMeansUnnamed(entries: Listing, inode: Inode)
    ensures Count(entries, Links(inode)) == 0 && Count(entries, Odd(inode)) == 0 <==> !NamedBelow(entries, inode)
  {
    match entries
    case End =>
    case Entry(t, rest) =>
      UncountedMeansUnnamed(rest, inode);
      CountNonNegative(rest, Links(inode));
      CountNonNegative(rest, Odd(inode));
      if t.Dir? {
        UncountedMeansUnnamed(t.entries, inode);
        CountNonNegative(t.entries, Links(inode));
        CountNonNegative(t.entries, Odd(inode));
      }
  }

  /** The file's link count is the number of directory entries that name it, in the scratch tree and anywhere else.
      When the audited count equals it, no entry outside the scratch tree names the file. */
  lemma ExactCountMeansNoOutsideLink(inside: Listing, outside: Listing, inode: Inode, linkCount: int)
    requires linkCount == Count(inside, Links(inode)) + Count(outside, Links(inode))
    requires Count(outside, Odd(inode)) == 0
    ensures Count(inside, Links(inode)) == linkCount <==> !NamedBelow(outside, inode)
  {
    UncountedMeansUnnamed(outside, inode);
  }

  // ----- a leaking run -----

  /** The calls of an audit over one empty subdirectory. */
  lemma ExampleScript(t: Tree, root: Listing, inode: Inode)
    requires t.Dir? && t.entries.End? && root == Entry(t, End) && !IsOdd(t, inode)
    ensures [Listdir, Stat, Openat, Fstat] <= Script([root], 0, inode)
  {
    var after := Tail(End, [] + [t.entries], 1, inode);
    assert [root][..0] == [];
    assert Tail(root, [], 0, inode) == [Stat] + ([Openat] + ([Fstat] + ([Compare] + after)));
  }

  /** A whole audit, of a tree with one empty subdirectory, in which only the call after the `openat` fails: it is
      denied, although nothing is wrong with the tree, and the subdirectory's descriptor stays open. */
  method LeakExample(inode: Inode) returns (kernel: Kernel, root: Listing, r: Outcome<int>, k: Kernel)
    requires inode.ino != 7
    ensures kernel.open == map[] && kernel.log == [] && forall i :: kernel.fails(i) <==> i == 4
    ensures root == Entry(Dir(1, 7, End), End) && !TooMuch(root, inode)
    ensures r.Denied? && Later(kernel, k) && FailsAt(kernel, k, 4) && k.log[4] == Fstat && |k.open| == 1
  {
    kernel := Kernel(map[], 3, [], i => i == 4);
    root := Entry(Dir(1, 7, End), End);
    ghost var leaked;
    r, k, leaked := CountLinks(kernel, root, inode);
    ExampleLeaks(kernel, root, inode);
    ghost var i :| FailsAt(kernel, k, i) && k.log[i] == Fstat;
    OpenIsLeaked(k.open, leaked);
  }

  lemma OpenIsLeaked(open: map<int, Listing>, leaked: set<int>)
    requires Holds(open, map[], leaked)
    ensures open.Keys == leaked && |open| == |leaked|
  {
    assert open.Keys == leaked;
    assert |open| == |open.Keys|;
  }

  lemma ExampleLeaks(kernel: Kernel, root: Listing, inode: Inode)
    requires kernel.log == [] && (forall i :: kernel.fails(i) <==> i == 4)
    requires root == Entry(Dir(1, 7, End), End) && inode.ino != 7
    ensures !TooMuch(root, inode) && FstatFailsFirst(kernel, root, inode)
  {
    ExampleScript(root.first, root, inode);
    hide Script;
    var full := FullLog(kernel, root, inode);
    assert full[4] == Script([root], 0, inode)[3];
    assert FirstFailure(kernel, full, 4);
  }
}
