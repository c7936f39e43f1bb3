/** Pending and blocked signals: two 64-bit words that stand for sets of the numbers 1 to 64. */
module Signals {
  import opened Words
  import opened Bits
  import opened LittleEndian
  import opened Smallest
  import opened PagedMemory
  import TaskMemory

  const MAX_SIGNAL := 64

  /** Bit n - 1 of a word stands for signal n. */
  predicate Has(w: Word, n: nat) {
    1 <= n <= MAX_SIGNAL && Bit(w, n - 1)
  }

  ghost function InWord(w: Word): set<nat> {
    set n: nat | n <= MAX_SIGNAL && Has(w, n)
  }

  // ---- words as sets ----

  lemma Below64(x: Word, y: Word)
    ensures Or(x, y) < WORD && AndNot(x, y) < WORD
  {
    Pow2Word();
    OrStaysBelow(x, y, 64);
    AndNotShrinks(x, y);
  }

  lemma {:induction false} Pow2Below(n: nat, m: nat)
    requires n < m
    ensures Pow2(n) < Pow2(m)
  {
    if m > n + 1 { Pow2Below(n, m - 1); }
  }

  /** `1 << (sig - 1)` as a word. */
  function SignalBit(sig: nat): Word
    requires 1 <= sig <= 64
  {
    Pow2Word(); Pow2Below(sig - 1, 64);
    Pow2(sig - 1)
  }

  lemma PostAddsOne(w: Word, sig: nat)
    requires 1 <= sig <= 64
    ensures Or(w, SignalBit(sig)) < WORD && InWord(Or(w, SignalBit(sig))) == InWord(w) + {sig}
  {
    Below64(w, SignalBit(sig));
    forall n: nat | 1 <= n <= MAX_SIGNAL
      ensures Has(Or(w, SignalBit(sig)), n) == (Has(w, n) || n == sig)
    {
      OrBits(w, SignalBit(sig), n - 1);
      Pow2Bits(sig - 1, n - 1);
    }
  }

  lemma ClearTakesOne(w: Word, sig: nat)
    requires 1 <= sig <= 64
    ensures AndNot(w, SignalBit(sig)) < WORD && InWord(AndNot(w, SignalBit(sig))) == InWord(w) - {sig}
  {
    Below64(w, SignalBit(sig));
    forall n: nat | 1 <= n <= MAX_SIGNAL
      ensures Has(AndNot(w, SignalBit(sig)), n) == (Has(w, n) && n != sig)
    {
      AndNotBits(w, SignalBit(sig), n - 1);
      Pow2Bits(sig - 1, n - 1);
    }
  }

  lemma OrIsUnion(x: Word, y: Word)
    ensures Or(x, y) < WORD && InWord(Or(x, y)) == InWord(x) + InWord(y)
  {
    Below64(x, y);
    forall n: nat | 1 <= n <= MAX_SIGNAL
      ensures Has(Or(x, y), n) == (Has(x, n) || Has(y, n))
    {
      OrBits(x, y, n - 1);
    }
  }

  lemma AndNotIsDifference(x: Word, y: Word)
    ensures AndNot(x, y) < WORD && InWord(AndNot(x, y)) == InWord(x) - InWord(y)
  {
    Below64(x, y);
    forall n: nat | 1 <= n <= MAX_SIGNAL
      ensures Has(AndNot(x, y), n) == (Has(x, n) && !Has(y, n))
    {
      AndNotBits(x, y, n - 1);
    }
  }

  /** Words are the same when the sets are. */
  lemma SameSet(x: Word, y: Word)
    requires InWord(x) == InWord(y)
    ensures x == y
  {
    Pow2Word();
    forall i: nat
      ensures Bit(x, i) == Bit(y, i)
    {
      if i < 64 {
        assert i + 1 in InWord(x) <==> i + 1 in InWord(y);
      } else {
        HighBitsClear(x, 64, i);
        HighBitsClear(y, 64, i);
      }
    }
    SameBits(x, y);
  }

  lemma InWordMeans(w: Word)
    ensures forall n: nat :: n in InWord(w) <==> Has(w, n)
  {}

  lemma ZeroIsEmpty(w: Word)
    ensures w == 0 <==> InWord(w) == {}
  {
    forall n: nat | 1 <= n <= MAX_SIGNAL
      ensures !Has(0, n)
    {
      ZeroHasNoBits(n - 1);
    }
    assert InWord(0) == {};
    if InWord(w) == {} { SameSet(w, 0); }
  }

  lemma TrailingZerosIsLeast(w: Word)
    requires w != 0
    ensures TrailingZeros(w) < 64 && IsLeast(TrailingZeros(w) + 1, InWord(w))
  {
    Pow2Word();
    TrailingZerosBits(w, 0);
    if TrailingZeros(w) >= 64 { HighBitsClear(w, 64, TrailingZeros(w)); }
    forall m | m in InWord(w)
      ensures TrailingZeros(w) + 1 <= m
    {
      TrailingZerosBits(w, m - 1);
    }
  }

  // ---- the two sets and what the calls do to them ----

  datatype State = State(pending: set<nat>, mask: set<nat>)

  datatype Op =
    | Post(sig: nat)
    | Block(signals: set<nat>)
    | Unblock(signals: set<nat>)
    | SetMask(signals: set<nat>)
    | Pop

  ghost function Next(s: State, op: Op): (State, Option<nat>) {
    match op
    case Post(sig) => (if 1 <= sig <= 64 then s.(pending := s.pending + {sig}) else s, None)
    case Block(m) => (s.(mask := s.mask + m), None)
    case Unblock(m) => (s.(mask := s.mask - m), None)
    case SetMask(m) => (s.(mask := m), None)
    case Pop =>
      if s.pending - s.mask == {} then (s, None)
      else var n := Least(s.pending - s.mask); (s.(pending := s.pending - {n}), Some(n))
  }

  datatype Result = Done(value: nat) | Error(errno: int)

  class TaskSignal {
    var pending: Word
    var mask: Word

    ghost function View(): State
      reads this
    {
      State(InWord(pending), InWord(mask))
    }

    constructor ()
      ensures View() == State({}, {})
    {
      pending, mask := 0, 0;
      new;
      ZeroIsEmpty(0);
    }

    method AddSignal(sig: Word)
      modifies this
      ensures View() == Next(old(View()), Post(sig)).0 && mask == old(mask)
      ensures forall n :: Has(pending, n) <==> Has(old(pending), n) || (n == sig && 1 <= sig <= 64)
    {
      if sig > 0 && sig <= MAX_SIGNAL {
        PostAddsOne(pending, sig);
        pending := Or(pending, SignalBit(sig));
      }
      InWordMeans(pending);
      InWordMeans(old(pending));
    }

    method HasUnmaskedSignal() returns (r: bool)
      ensures r <==> View().pending - View().mask != {}
    {
      AndNotIsDifference(pending, mask);
      ZeroIsEmpty(AndNot(pending, mask));
      r := AndNot(pending, mask) != 0;
    }

    /** Delivers the least pending unmasked signal and clears just that one. */
    method PopSignal() returns (r: Option<nat>)
      modifies this
      ensures (View(), r) == Next(old(View()), Pop) && mask == old(mask)
      ensures r.None? ==> pending == old(pending) && forall n :: Has(pending, n) ==> Has(mask, n)
      ensures r.Some? ==>
                && Has(old(pending), r.value) && !Has(mask, r.value)
                && (forall n :: Has(old(pending), n) && !Has(mask, n) ==> r.value <= n)
                && (forall n :: Has(pending, n) <==> Has(old(pending), n) && n != r.value)
    {
      hide AndNot, Bit;
      InWordMeans(pending);
      InWordMeans(mask);
      AndNotIsDifference(pending, mask);
      var ready: Word := AndNot(pending, mask);
      ZeroIsEmpty(ready);
      assert forall n :: Has(pending, n) && !Has(mask, n) ==> n in InWord(ready);
      if ready == 0 { return None; }
      TrailingZerosIsLeast(ready);
      var sig := TrailingZeros(ready) + 1;
      ClearTakesOne(pending, sig);
      pending := AndNot(pending, SignalBit(sig));
      InWordMeans(pending);
      return Some(sig);
    }

    /** `sys_sigprocmask` once its arguments have been fetched: `newMask` is None when the
        caller passes no set, and the old mask is what goes to the caller's buffer. */
    method Sigprocmask(how: I32, newMask: Option<Word>) returns (r: Result, oldMask: Word)
      modifies this
      ensures oldMask == old(mask) && pending == old(pending)
      ensures newMask.None? ==> r == Done(0) && View() == old(View())
      ensures newMask.Some? ==>
                && (r == Done(0) <==> how in {0, 1, 2})
                && forall n: nat :: 1 <= n <= 64 ==>
                     (Has(mask, n) <==>
                      if how == 0 then Has(old(mask), n) || Has(newMask.value, n)
                      else if how == 1 then Has(old(mask), n) && !Has(newMask.value, n)
                      else if how == 2 then Has(newMask.value, n)
                      else Has(old(mask), n))
      ensures newMask.Some? ==>
                match how
                case 0 => r == Done(0) && View() == Next(old(View()), Block(InWord(newMask.value))).0
                case 1 => r == Done(0) && View() == Next(old(View()), Unblock(InWord(newMask.value))).0
                case 2 => r == Done(0) && View() == Next(old(View()), SetMask(InWord(newMask.value))).0
                case _ => r == Error(22) && View() == old(View())
    {
      hide Or, AndNot, Bit;
      oldMask := mask;
      if newMask.Some? {
        InWordMeans(mask);
        InWordMeans(newMask.value);
        match how {
          case 0 => OrIsUnion(mask, newMask.value); mask := Or(mask, newMask.value);
          case 1 => AndNotIsDifference(mask, newMask.value); mask := AndNot(mask, newMask.value);
          case 2 => mask := newMask.value;
          case _ => return Error(22), oldMask;
        }
        InWordMeans(mask);
      }
      return Done(0), oldMask;
    }
  }

  // ---- sigprocmask with its memory transfers ----

  /** What reading eight bytes into a zeroed buffer gives: nothing past the end of the page. */
  function MaskBytes(m: Pages, addr: Word): (b: seq<Byte>)
    ensures |b| == 8
  {
    seq(8, t requires 0 <= t < 8 =>
      if PageDown(addr) in m && addr % PAGE_SIZE + t < PAGE_SIZE then m[PageDown(addr)][addr % PAGE_SIZE + t] else 0)
  }

  function MaskAt(m: Pages, addr: Word): Word {
    Pow2Word();
    FromLe(MaskBytes(m, addr))
  }

  /** Stores the old mask first and fetches the new one afterwards. */
  method SysSigprocmask(task: TaskMemory.Sel4Task, signal: TaskSignal, how: I32, setAddr: Word, oldAddr: Word)
    returns (r: Result)
    requires task.Valid()
    modifies signal, task`mappedPage, task`pageData
    ensures task.Valid()
    ensures task.pageData == if oldAddr != 0 then PutBytes(old(task.pageData), oldAddr, LeBytes(old(signal.mask), 8))
                             else old(task.pageData)
    ensures signal.pending == old(signal.pending)
    ensures setAddr == 0 ==> r == Done(0) && signal.View() == old(signal.View())
    ensures setAddr != 0 ==>
              var word := MaskAt(task.pageData, setAddr);
              && (r == Done(0) <==> how in {0, 1, 2})
              && forall n: nat :: 1 <= n <= 64 ==>
                   (Has(signal.mask, n) <==>
                    if how == 0 then Has(old(signal.mask), n) || Has(word, n)
                    else if how == 1 then Has(old(signal.mask), n) && !Has(word, n)
                    else if how == 2 then Has(word, n)
                    else Has(old(signal.mask), n))
    ensures setAddr != 0 ==>
              var arg := InWord(MaskAt(task.pageData, setAddr));
              match how
              case 0 => r == Done(0) && signal.View() == Next(old(signal.View()), Block(arg)).0
              case 1 => r == Done(0) && signal.View() == Next(old(signal.View()), Unblock(arg)).0
              case 2 => r == Done(0) && signal.View() == Next(old(signal.View()), SetMask(arg)).0
              case _ => r == Error(22) && signal.View() == old(signal.View())
  {
    hide PutBytes, LeBytes, InWord, FromLe;
    if oldAddr != 0 { task.WriteBytes(oldAddr, LeBytes(signal.mask, 8)); }
    var newMask: Option<Word> := None;
    if setAddr != 0 {
      var buf := new Byte[8](_ => 0);
      var read := task.ReadBytes(setAddr, buf);
      assert buf[..] == MaskBytes(task.pageData, setAddr);
      Pow2Word();
      newMask := Some(FromLe(buf[..]));
    }
    var oldMask;
    r, oldMask := signal.Sigprocmask(how, newMask);
  }

  /** With one pointer for both masks the old mask comes back as the new one exactly when it
      has no bit in the bytes that lie past the end of the page. */
  lemma SamePointerKeepsMask(m: Pages, addr: Word, mask: Word)
    ensures MaskAt(PutBytes(m, addr, LeBytes(mask, 8)), addr) == mask
            <==> forall t :: 0 <= t < 8 && addr % PAGE_SIZE + t >= PAGE_SIZE ==> LeBytes(mask, 8)[t] == 0
  {
    hide PutBytes, LeBytes, FromLe;
    var stored, want := MaskBytes(PutBytes(m, addr, LeBytes(mask, 8)), addr), LeBytes(mask, 8);
    forall t | 0 <= t < 8
      ensures stored[t] == if addr % PAGE_SIZE + t < PAGE_SIZE then want[t] else 0
    {
      if addr % PAGE_SIZE + t < PAGE_SIZE { StoredByte(m, addr, want, t); }
    }
    WordFits(mask);
    FromLeOfBytes(mask, 8);
    BytesOfFromLe(stored);
    if forall t :: 0 <= t < 8 && addr % PAGE_SIZE + t >= PAGE_SIZE ==> want[t] == 0 { assert stored == want; }
  }

  lemma StoredByte(m: Pages, addr: Word, data: seq<Byte>, t: nat)
    requires |data| == 8 && t < 8 && addr % PAGE_SIZE + t < PAGE_SIZE
    ensures var after := PutBytes(m, addr, data);
            PageDown(addr) in after && after[PageDown(addr)][addr % PAGE_SIZE + t] == data[t]
  {
    hide PutBytes;
    SamePage(addr, t);
    PutBytesAt(m, addr, data, addr + t);
  }

  lemma SamePage(addr: Word, t: nat)
    requires t < 8 && addr % PAGE_SIZE + t < PAGE_SIZE
    ensures addr + t < WORD && PageDown(addr + t) == PageDown(addr) && (addr + t) % PAGE_SIZE == addr % PAGE_SIZE + t
    ensures Wrap(addr + t - addr) == t
  {}

  /** `1 << (sig - 1)` without a check for 0: the subtraction wraps and the shift amount is
      taken modulo 64. */
  function ShiftAmount(sig: Word): (n: nat)
    ensures n < 64
  {
    Wrap(sig - 1) % 64
  }

  lemma ShiftAmounts(sig: Word)
    requires sig <= MAX_SIGNAL
    ensures ShiftAmount(sig) == if sig == 0 then 63 else sig - 1
  {}

  /** `sys_kill`: signal 0 only asks whether the task exists; numbers above 64 are accepted
      and change nothing. */
  method SysKill(tasks: map<Word, TaskSignal>, pid: Word, sig: Word) returns (r: Result)
    modifies if pid in tasks then {tasks[pid]} else {}
    ensures r == if pid in tasks then Done(0) else Error(3)
    ensures pid in tasks ==> tasks[pid].View() == Next(old(tasks[pid].View()), Post(sig)).0
  {
    hide SignalBit, ShiftAmount, InWord;
    if sig == 0 {
      if pid in tasks { return Done(0); }
      return Error(3);
    }
    if pid in tasks {
      var target := tasks[pid];
      if sig <= MAX_SIGNAL {
        ShiftAmounts(sig);
        PostAddsOne(target.pending, sig);
        target.pending := Or(target.pending, SignalBit(ShiftAmount(sig) + 1));
      }
      return Done(0);
    }
    return Error(3);
  }

  /** `sys_tkill` has no test for signal 0. */
  method SysTkill(tasks: map<Word, TaskSignal>, tid: Word, sig: Word) returns (r: Result)
    modifies if tid in tasks then {tasks[tid]} else {}
    ensures r == if tid in tasks then Done(0) else Error(3)
    ensures tid in tasks ==>
              tasks[tid].View() == Next(old(tasks[tid].View()), Post(if sig == 0 then 64 else sig)).0
  {
    hide SignalBit, ShiftAmount, InWord;
    if tid in tasks {
      var target := tasks[tid];
      if sig <= MAX_SIGNAL {
        ShiftAmounts(sig);
        PostAddsOne(target.pending, if sig == 0 then 64 else sig);
        target.pending := Or(target.pending, SignalBit(ShiftAmount(sig) + 1));
      }
      return Done(0);
    }
    return Error(3);
  }

  /** Posting through `tkill` agrees with posting through `kill` exactly when the number is
      not 0, or signal 64 was pending anyway. */
  lemma TkillAgreesWithKill(s: State, sig: Word)
    ensures Next(s, Post(if sig == 0 then 64 else sig)) == Next(s, Post(sig)) <==> sig != 0 || 64 in s.pending
  {
    if sig == 0 {
      assert Next(s, Post(0)).0 == s;
      assert 64 in s.pending ==> s.pending + {64} == s.pending;
      assert 64 in Next(s, Post(64)).0.pending;
    }
  }

  // ---- every run ----

  ghost function Run(s: State, ops: seq<Op>): State
    decreases |ops|
  {
    if ops == [] then s else Run(Next(s, ops[0]).0, ops[1..])
  }

  /** How often `sig` is delivered along a run. */
  ghost function Deliveries(s: State, ops: seq<Op>, sig: nat): nat
    decreases |ops|
  {
    if ops == [] then 0
    else (if Next(s, ops[0]).1 == Some(sig) then 1 else 0) + Deliveries(Next(s, ops[0]).0, ops[1..], sig)
  }

  /** How often `sig` is posted while it is not already pending. */
  ghost function NewPosts(s: State, ops: seq<Op>, sig: nat): nat
    decreases |ops|
  {
    if ops == [] then 0
    else (if ops[0] == Post(sig) && 1 <= sig <= 64 && sig !in s.pending then 1 else 0)
         + NewPosts(Next(s, ops[0]).0, ops[1..], sig)
  }

  ghost function Held(s: State, sig: nat): nat {
    if sig in s.pending then 1 else 0
  }

  /** Nothing is lost and nothing is invented: what was pending or newly posted has either
      been delivered or is still pending. */
  lemma {:induction false} SignalsAreConserved(s: State, ops: seq<Op>, sig: nat)
    ensures Held(s, sig) + NewPosts(s, ops, sig) == Deliveries(s, ops, sig) + Held(Run(s, ops), sig)
    decreases |ops|
  {
    if ops != [] { SignalsAreConserved(Next(s, ops[0]).0, ops[1..], sig); }
  }

  /** No operation of the run takes `sig` out of the mask. */
  predicate KeepsMasked(ops: seq<Op>, sig: nat) {
    forall i :: 0 <= i < |ops| ==>
      match ops[i]
      case Unblock(m) => sig !in m
      case SetMask(m) => sig in m
      case _ => true
  }

  /** A signal that stays masked is never delivered, and stays pending once it is. */
  lemma {:induction false} MaskedIsHeldBack(s: State, ops: seq<Op>, sig: nat)
    requires sig in s.mask && KeepsMasked(ops, sig)
    ensures Deliveries(s, ops, sig) == 0 && sig in Run(s, ops).mask
    ensures sig in s.pending ==> sig in Run(s, ops).pending
    decreases |ops|
  {
    if ops != [] {
      assert KeepsMasked(ops[1..], sig);
      MaskedIsHeldBack(Next(s, ops[0]).0, ops[1..], sig);
    }
  }

  /** What repeated pops deliver until one of them answers None. */
  ghost function Drained(s: State): seq<nat>
    decreases s.pending
  {
    var (s', sig) := Next(s, Pop);
    if sig.None? then [] else [sig.value] + Drained(s')
  }

  ghost function Pops(n: nat): (ops: seq<Op>)
    ensures |ops| == n
  {
    seq(n, _ => Pop)
  }

  /** Draining delivers exactly the pending unmasked signals in strictly ascending order, in
      as many pops as there are of them, and leaves exactly the pending masked ones. */
  lemma {:induction false} DrainDelivers(s: State)
    ensures forall i, j :: 0 <= i < j < |Drained(s)| ==> Drained(s)[i] < Drained(s)[j]
    ensures forall n :: n in Drained(s) <==> n in s.pending - s.mask
    ensures Run(s, Pops(|Drained(s)|)) == State(s.pending * s.mask, s.mask)
    decreases s.pending
  {
    var (s', sig) := Next(s, Pop);
    var d := Drained(s);
    if sig.Some? {
      assert s'.pending < s.pending;
      DrainDelivers(s');
      assert s'.pending - s'.mask == (s.pending - s.mask) - {sig.value};
      assert s'.pending * s.mask == s.pending * s.mask;
      assert Pops(|d|)[1..] == Pops(|d| - 1);
      assert forall j :: 1 <= j < |d| ==> d[j] in Drained(s');
    } else {
      assert s.pending - s.mask == {};
      assert forall n :: n in s.pending ==> n !in s.pending - s.mask;
      assert s.pending * s.mask == s.pending;
    }
  }

  // ---- unmasked signals get through ----

  /** Whether `sig` is masked after calls that found it masked or not: the last call that
      says something about it decides. */
  function MaskedAfter(ops: seq<Op>, sig: nat, masked: bool): bool {
    if ops == [] then masked
    else
      MaskedAfter(ops[1..], sig,
                  match ops[0]
                  case Block(m) => masked || sig in m
                  case Unblock(m) => masked && sig !in m
                  case SetMask(m) => sig in m
                  case _ => masked)
  }

  lemma {:induction false} MaskIsDecidedByCalls(s: State, ops: seq<Op>, sig: nat)
    ensures sig in Run(s, ops).mask <==> MaskedAfter(ops, sig, sig in s.mask)
    decreases |ops|
  {
    if ops != [] { MaskIsDecidedByCalls(Next(s, ops[0]).0, ops[1..], sig); }
  }

  /** A signal that is pending, or posted on the way, is delivered in the course of the run or
      by the drain after it if the calls leave it unmasked; if they leave it masked and the run
      did not deliver it, it is still pending. */
  lemma UnmaskedGetsThrough(s: State, ops: seq<Op>, sig: nat)
    requires sig in s.pending || NewPosts(s, ops, sig) > 0
    ensures !MaskedAfter(ops, sig, sig in s.mask) ==> Deliveries(s, ops, sig) > 0 || sig in Drained(Run(s, ops))
    ensures MaskedAfter(ops, sig, sig in s.mask) && Deliveries(s, ops, sig) == 0 ==>
              sig in Run(s, ops).pending && sig !in Drained(Run(s, ops))
  {
    hide Next;
    SignalsAreConserved(s, ops, sig);
    MaskIsDecidedByCalls(s, ops, sig);
    DrainDelivers(Run(s, ops));
  }
}
