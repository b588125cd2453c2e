/**
 * `cycleMessage`: a five-entry table of `msg` followed by one to five
 * periods, a counter `cycleIndex` read with post-increment and reset once it
 * passes 4, and a handle whose `cancel` clears the interval. The interval
 * itself is not modelled: each firing is a call of Tick.
 */
module StatusCycler {

  /** n periods. */
  function Dots(n: nat): (r: string)
    ensures |r| == n && forall k :: 0 <= k < n ==> r[k] == '.'
  {
    if n == 0 then "" else Dots(n - 1) + "."
  }

  /** The table `cycleMessage` builds: entry i is msg with i + 1 periods. */
  function CycleTable(msg: string): seq<string> {
    [msg + ".", msg + "..", msg + "...", msg + "....", msg + "....."]
  }

  /** What the k-th firing (from 1) publishes: msg with ((k - 1) mod 5) + 1 periods. */
  function Status(msg: string, k: nat): string
    requires k >= 1
  {
    msg + Dots((k - 1) % 5 + 1)
  }

  lemma CycleTableEntries(msg: string)
    ensures forall i :: 0 <= i < 5 ==> CycleTable(msg)[i] == msg + Dots(i + 1)
  {
    assert Dots(1) == ".";
    assert Dots(2) == "..";
    assert Dots(3) == "...";
    assert Dots(4) == "....";
    assert Dots(5) == ".....";
  }

  /**
   * The published text repeats with period five, and the first five firings
   * publish one to five periods.
   */
  lemma StatusCycles(msg: string, k: nat)
    requires k >= 1
    ensures Status(msg, k + 5) == Status(msg, k)
    ensures k <= 5 ==> Status(msg, k) == CycleTable(msg)[k - 1]
    ensures msg <= Status(msg, k) && 1 <= |Status(msg, k)| - |msg| <= 5
  {
    CycleTableEntries(msg);
    assert (k + 5 - 1) % 5 == (k - 1) % 5;
  }

  class Ticker {
    const msg: string
    const cycle: seq<string>
    var cycleIndex: int
    var cancelled: bool
    /** The calls of `fnPublish` so far. */
    var published: seq<string>

    ghost predicate Valid()
      reads this
    {
      cycle == CycleTable(msg) && 0 <= cycleIndex <= 5 &&
      (|published| == 0 ==> cycleIndex == 0) &&
      (|published| > 0 ==> cycleIndex == (|published| - 1) % 5 + 1) &&
      forall k :: 0 <= k < |published| ==> published[k] == Status(msg, k + 1)
    }

    /** `cycleMessage(msg, ...)`: the interval is set up; nothing is published yet. */
    constructor (msg: string)
      ensures Valid() && this.msg == msg && published == [] && !cancelled
    {
      this.msg := msg;
      cycle := CycleTable(msg);
      cycleIndex := 0;
      cancelled := false;
      published := [];
    }

    /**
     * One firing of `fnWaiting`. Once cancelled the interval no longer fires,
     * so nothing changes; otherwise the k-th firing publishes Status(msg, k).
     */
    method Tick() returns (text: string)
      requires Valid()
      modifies this
      ensures Valid() && cancelled == old(cancelled)
      ensures old(cancelled) ==> published == old(published) && cycleIndex == old(cycleIndex)
      ensures !old(cancelled) ==> text == Status(msg, |old(published)| + 1) && published == old(published) + [text]
    {
      text := "";
      if !cancelled {
        if cycleIndex > 4 {
          cycleIndex := 0;
        }
        text := cycle[cycleIndex];
        IndexBeforeRead(|published|, cycleIndex);
        CycleTableEntries(msg);
        published := published + [text];
        cycleIndex := cycleIndex + 1;
      }
    }

    /** `cancel()`: clears the interval; calling it again changes nothing. */
    method Cancel()
      requires Valid()
      modifies this
      ensures Valid() && cancelled
      ensures published == old(published) && cycleIndex == old(cycleIndex)
    {
      cancelled := true;
    }
  }

  /** The index read by the n+1-th firing, after the reset, is n mod 5. */
  lemma IndexBeforeRead(n: nat, idx: int)
    requires n == 0 ==> idx == 0
    requires n > 0 ==> idx == (if (n - 1) % 5 + 1 > 4 then 0 else (n - 1) % 5 + 1)
    ensures 0 <= idx <= 4 && idx == n % 5
  {
  }
}
