/** `read_ksystime` of kuser.hpp: reading a three-word time that the kernel goes on
    updating, with no lock.  The kernel's side is an assumption of the model: it stores
    High2Time, LowPart and High1Time in that order, and time does not go back. */
module SystemTime {
  import opened Options

  const WORD := 0x1_0000_0000

  function Hi(t: nat): nat { t / WORD }
  function Lo(t: nat): nat { t % WORD }

  /** The times the kernel publishes, one after the other. */
  ghost predicate NeverBack(times: nat -> nat) {
    forall m: nat, n: nat :: m <= n ==> times(m) <= times(n)
  }

  /** Which published time a word holds once the kernel has made `stores` stores, when the
      word is the `place`-th of the three that an update stores. */
  function Holds(stores: nat, place: nat): nat
    requires place < 3
  {
    (stores + 2 - place) / 3
  }

  /** Where in an update each word is stored. */
  datatype Layout = Layout(high1: nat, low: nat, high2: nat)

  const KERNEL := Layout(2, 1, 0)

  /** What a reader puts together from loads made after s1, s2 and s3 stores; none when the
      two high words differ. */
  function ReadAt(times: nat -> nat, order: Layout, s1: nat, s2: nat, s3: nat): Option<nat>
    requires order.high1 < 3 && order.low < 3 && order.high2 < 3
  {
    var high1 := Hi(times(Holds(s1, order.high1)));
    var low := Lo(times(Holds(s2, order.low)));
    var high2 := Hi(times(Holds(s3, order.high2)));
    if high1 == high2 then Some(high1 * WORD + low) else None
  }

  /** However the kernel's stores fall between the three loads, what is read is the time
      whose low word was there when the low word was loaded. */
  lemma NeverTorn(times: nat -> nat, s1: nat, s2: nat, s3: nat)
    requires NeverBack(times) && s1 <= s2 <= s3
    ensures var r := ReadAt(times, KERNEL, s1, s2, s3);
      r.Some? ==> r.value == times(Holds(s2, KERNEL.low))
  {
    var i, j, k := Holds(s1, 2), Holds(s2, 1), Holds(s3, 0);
    assert i <= j <= k;
    assert times(i) <= times(j) <= times(k);
    HiMonotone(times(i), times(j));
    HiMonotone(times(j), times(k));
  }

  lemma HiMonotone(x: nat, y: nat)
    requires x <= y
    ensures Hi(x) <= Hi(y)
  {
  }

  /** No store between the first load and the last, and no update half done: it returns. */
  lemma QuietReadReturns(times: nat -> nat, s: nat)
    requires s % 3 == 0
    ensures ReadAt(times, KERNEL, s, s, s) == Some(times(s / 3))
  {
  }

  /** The order of the stores matters: with the high words exchanged a value that was never
      published can be read. */
  lemma OtherOrderTears()
    ensures exists times: nat -> nat, s1: nat, s2: nat, s3: nat ::
      && NeverBack(times) && s1 <= s2 <= s3
      && ReadAt(times, Layout(0, 1, 2), s1, s2, s3).Some?
      && forall n: nat :: times(n) != ReadAt(times, Layout(0, 1, 2), s1, s2, s3).value
  {
    var times := (n: nat) => if n == 0 then WORD - 1 else WORD;
    assert NeverBack(times);
    assert ReadAt(times, Layout(0, 1, 2), 0, 2, 2) == Some(0);
    assert forall n: nat :: times(n) != 0;
  }

  /** So does time never going back. */
  lemma GoingBackTears()
    ensures exists times: nat -> nat, s1: nat, s2: nat, s3: nat ::
      && s1 <= s2 <= s3 && ReadAt(times, KERNEL, s1, s2, s3).Some?
      && forall n: nat :: times(n) != ReadAt(times, KERNEL, s1, s2, s3).value
  {
    var times := (n: nat) => if n == 1 then 5 else WORD;
    assert ReadAt(times, KERNEL, 0, 3, 6) == Some(WORD + 5);
    assert forall n: nat :: times(n) != WORD + 5;
  }

  /** The word stored next moves on to the next update and the others stay. */
  lemma NextStore(count: nat)
    ensures Holds(count + 1, 0) == if count % 3 == 0 then count / 3 + 1 else Holds(count, 0)
    ensures Holds(count + 1, 1) == if count % 3 == 1 then count / 3 + 1 else Holds(count, 1)
    ensures Holds(count + 1, 2) == if count % 3 == 2 then count / 3 + 1 else Holds(count, 2)
  {
  }

  /** The stores made before the k-th load's turn: those at first and the scheduled ones so far. */
  function Stores(count: nat, schedule: seq<nat>, k: nat): (s: nat)
    requires k <= |schedule|
    ensures count <= s
  {
    if k == 0 then count else Stores(count, schedule, k - 1) + schedule[k - 1]
  }

  lemma RoundStores(count: nat, schedule: seq<nat>, i: nat)
    requires i + 3 <= |schedule|
    ensures Stores(count, schedule, i + 1) == Stores(count, schedule, i) + schedule[i]
    ensures Stores(count, schedule, i + 2) == Stores(count, schedule, i + 1) + schedule[i + 1]
    ensures Stores(count, schedule, i + 3) == Stores(count, schedule, i + 2) + schedule[i + 2]
  {
  }

  /** In the i-th round the first and the last load see the same high word. */
  ghost predicate Accepted(times: nat -> nat, count: nat, schedule: seq<nat>, i: nat)
    requires 3 * i + 3 <= |schedule|
  {
    var first, last := Stores(count, schedule, 3 * i + 1), Stores(count, schedule, 3 * i + 3);
    times(Holds(first, KERNEL.high1)) / 0x1_0000_0000 == times(Holds(last, KERNEL.high2)) / 0x1_0000_0000
  }

  /** A round is accepted when it begins between two updates and no store falls into it, and when the
      time's high word never changes. */
  lemma QuietRoundAccepted(times: nat -> nat, count: nat, schedule: seq<nat>, i: nat)
    requires 3 * i + 3 <= |schedule|
    requires || (Stores(count, schedule, 3 * i + 1) % 3 == 0 && schedule[3 * i + 1] == 0 == schedule[3 * i + 2])
             || (forall m: nat, n: nat :: times(m) / 0x1_0000_0000 == times(n) / 0x1_0000_0000)
    ensures Accepted(times, count, schedule, i)
  {
    assert Stores(count, schedule, 3 * i + 3) == Stores(count, schedule, 3 * i + 1) + schedule[3 * i + 1] + schedule[3 * i + 2];
    hide Stores;
  }

  /** What the three words read in a round say. */
  lemma RoundRead(times: nat -> nat, count: nat, schedule: seq<nat>, i: nat, high1: nat, low: nat, high2: nat)
    requires 3 * i + 3 <= |schedule| && NeverBack(times)
    requires high1 == Hi(times(Holds(Stores(count, schedule, 3 * i + 1), KERNEL.high1)))
    requires low == Lo(times(Holds(Stores(count, schedule, 3 * i + 2), KERNEL.low)))
    requires high2 == Hi(times(Holds(Stores(count, schedule, 3 * i + 3), KERNEL.high2)))
    ensures high1 == high2 <==> Accepted(times, count, schedule, i)
    ensures high1 == high2 ==> high1 * WORD + low == times(Holds(Stores(count, schedule, 3 * i + 2), KERNEL.low))
  {
    NeverTorn(times, Stores(count, schedule, 3 * i + 1), Stores(count, schedule, 3 * i + 2), Stores(count, schedule, 3 * i + 3));
  }

  /** The shared page: three words the kernel stores into, one at a time. */
  class SharedTime {
    const times: nat -> nat
    var LowPart: nat
    var High1Time: nat
    var High2Time: nat
    ghost var stores: nat

    ghost predicate Valid()
      reads this
    {
      && High1Time == Hi(times(Holds(stores, KERNEL.high1)))
      && LowPart == Lo(times(Holds(stores, KERNEL.low)))
      && High2Time == Hi(times(Holds(stores, KERNEL.high2)))
    }

    lemma WordsHold(s: nat)
      requires Valid() && stores == s
      ensures High1Time == Hi(times(Holds(s, KERNEL.high1))) && LowPart == Lo(times(Holds(s, KERNEL.low)))
      ensures High2Time == Hi(times(Holds(s, KERNEL.high2)))
    {
    }

    constructor (t: nat -> nat)
      ensures Valid() && times == t && stores == 0
    {
      times, stores := t, 0;
      LowPart, High1Time, High2Time := Lo(t(0)), Hi(t(0)), Hi(t(0));
    }

    /** The kernel's next store: the word whose turn it is. */
    method KernelStore(count: nat)
      requires Valid() && count == stores
      modifies this
      ensures Valid() && stores == old(stores) + 1
    {
      NextStore(count);
      hide Holds;
      var update := count / 3 + 1;
      if count % 3 == 0 {
        High2Time := Hi(times(update));
      } else if count % 3 == 1 {
        LowPart := Lo(times(update));
      } else {
        High1Time := Hi(times(update));
      }
      stores := stores + 1;
    }

    /** The kernel runs for a while: k stores. */
    method KernelRuns(count: nat, k: nat)
      requires Valid() && count == stores
      modifies this
      ensures Valid() && stores == old(stores) + k
    {
      for i := 0 to k
        invariant Valid() && stores == count + i
      {
        KernelStore(count + i);
      }
    }

    /** The three loads of a round, each after the stores scheduled before it. */
    method Loads(count: nat, k1: nat, k2: nat, k3: nat) returns (high1: nat, low: nat, high2: nat)
      requires Valid() && count == stores
      modifies this
      ensures Valid() && stores == count + k1 + k2 + k3
      ensures high1 == Hi(times(Holds(count + k1, KERNEL.high1)))
      ensures low == Lo(times(Holds(count + k1 + k2, KERNEL.low)))
      ensures high2 == Hi(times(Holds(count + k1 + k2 + k3, KERNEL.high2)))
    {
      hide Holds, Hi, Lo, Valid;
      KernelRuns(count, k1);
      WordsHold(count + k1);
      high1 := High1Time;
      KernelRuns(count + k1, k2);
      WordsHold(count + k1 + k2);
      low := LowPart;
      KernelRuns(count + k1 + k2, k3);
      WordsHold(count + k1 + k2 + k3);
      high2 := High2Time;
    }

    /** `read_ksystime`, with the kernel making schedule[i] stores before the i-th load.  It returns in the
        first round whose two high words agree, with the time of that round's middle load; `none` means
        the schedule ran out with the loop still turning. */
    method Read(count: nat, schedule: seq<nat>) returns (r: Option<nat>, ghost rounds: nat)
      requires Valid() && count == stores && NeverBack(times)
      modifies this
      ensures Valid() && 3 * rounds <= |schedule|
      ensures forall i :: 0 <= i < rounds ==> !Accepted(times, count, schedule, i)
      ensures if r.Some? then 3 * rounds + 3 <= |schedule| && Accepted(times, count, schedule, rounds)
              else |schedule| < 3 * rounds + 3
      ensures r.Some? ==> r.value == times(Holds(Stores(count, schedule, 3 * rounds + 2), KERNEL.low))
      ensures stores == Stores(count, schedule, 3 * rounds + if r.Some? then 3 else 0)
    {
      hide Holds, NeverBack, Accepted, Hi, Lo, Valid;
      var c, i := count, 0;
      rounds := 0;
      while i + 3 <= |schedule|
        invariant i == 3 * rounds <= |schedule|
        invariant Valid() && stores == c == Stores(count, schedule, i)
        invariant forall k :: 0 <= k < rounds ==> !Accepted(times, count, schedule, k)
        decreases |schedule| - i
      {
        RoundStores(count, schedule, i);
        hide Stores;
        var high1, low, high2 := Loads(c, schedule[i], schedule[i + 1], schedule[i + 2]);
        c := c + schedule[i] + schedule[i + 1] + schedule[i + 2];
        RoundRead(times, count, schedule, rounds, high1, low, high2);
        if high1 == high2 {
          return Some(high1 * WORD + low), rounds;
        }
        i := i + 3;
        rounds := rounds + 1;
      }
      return None, rounds;
    }
  }
}
