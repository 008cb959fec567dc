/** The per-nick flood windows of flood.c (is_other_flood, set_flood), for one kind of event. */
module FloodWindow {

  /** The settings for the kind: how many events, in how many seconds (0 for no time limit). */
  datatype Limits = Limits(count: nat, rate: nat)

  /** A counter and the time its window began, as in joincount and jointime. */
  datatype Window = Window(count: nat, start: int)

  /** One event: the new window, and whether it floods. A flood resets the start to 0, anything
      else that fills the window to the present. */
  function Tick(w: Window, now: int, limits: Limits): (Window, bool) {
    var count := w.count + 1;
    if count < limits.count then (Window(count, w.start), false)
    else
      var elapsed := now - w.start;
      var flooded := elapsed == 0 || (limits.rate != 0 && elapsed < limits.rate);
      (Window(1, if flooded then 0 else now), flooded)
  }

  /** The counter pair of a nick_list record. */
  class Record {
    var count: nat
    var start: int

    /** is_other_flood: an exempt nick (our own, or one on the no-flood list) is not even counted, and
        with the kind's setting off nothing is judged. */
    method IsOtherFlood(now: int, limits: Limits, exempt: bool, watched: bool) returns (flooded: bool)
      modifies this
      ensures exempt ==> !flooded && Window(count, start) == old(Window(count, start))
      ensures !exempt && !watched ==> !flooded && Window(count, start) == Window(old(count) + 1, old(start))
      ensures !exempt && watched ==> (Window(count, start), flooded) == Tick(old(Window(count, start)), now, limits)
    {
      if exempt { return false; }
      SetFlood(now, false);
      flooded := false;
      if watched && count >= limits.count {
        var diff := now - start;
        flooded := diff == 0 || (limits.rate != 0 && diff < limits.rate);
        SetFlood(if flooded then 0 else now, true);
      }
    }

    method SetFlood(time: int, reset: bool)
      modifies this
      ensures Window(count, start) == if reset then Window(1, time) else Window(old(count) + 1, old(start))
    {
      if reset { count, start := 1, time; } else { count := count + 1; }
    }
  }

  /** The window after a series of events. */
  function After(w: Window, times: seq<int>, limits: Limits): Window
    decreases |times|
  {
    if times == [] then w else After(Tick(w, times[0], limits).0, times[1..], limits)
  }

  /** Events that do not fill the window only count, whenever they come. */
  lemma {:induction false} NotYetFull(w: Window, times: seq<int>, limits: Limits)
    requires w.count + |times| < limits.count
    ensures After(w, times, limits) == Window(w.count + |times|, w.start)
    decreases |times|
  {
    if times != [] { NotYetFull(Window(w.count + 1, w.start), times[1..], limits); }
  }

  /** The event that fills the window floods exactly if it comes less than the rate after the window's
      start, or in the same second; the times of those before it do not matter. */
  lemma FullWindowFloods(w: Window, times: seq<int>, now: int, limits: Limits)
    requires w.count + |times| + 1 == limits.count && w.start <= now
    ensures var (w', flooded) := Tick(After(w, times, limits), now, limits);
            && (flooded <==> now < w.start + limits.rate || now == w.start)
            && w' == Window(1, if flooded then 0 else now)
  {
    NotYetFull(w, times, limits);
  }

  function Max(a: int, b: int): int { if a > b then a else b }

  /** The least number of further events up to and including the next flood: the window has to fill,
      and twice if it began at 0. */
  function Needed(w: Window, limits: Limits): int {
    Max(1, limits.count - w.count) + if w.start == 0 then Max(1, limits.count - 1) else 0
  }

  /** The clock is past the rate, and past 0. */
  predicate Late(times: seq<int>, limits: Limits) {
    forall i :: 0 <= i < |times| ==> times[i] > 0 && times[i] >= limits.rate
  }

  /** No flood comes sooner than needed. */
  lemma {:induction false} NoFloodBefore(w: Window, times: seq<int>, now: int, limits: Limits)
    requires Late(times + [now], limits) && Tick(After(w, times, limits), now, limits).1
    ensures |times| + 1 >= Needed(w, limits)
    decreases |times|
  {
    assert (times + [now])[|times|] == now;
    if times != [] {
      assert times[0] == (times + [now])[0] && times[1..] + [now] == (times + [now])[1..];
      NoFloodBefore(Tick(w, times[0], limits).0, times[1..], now, limits);
    }
  }

  /** Two floods of one record are at least 2 * (count - 1) events apart, and at least two. */
  lemma FloodsAreApart(w: Window, first: int, between: seq<int>, second: int, limits: Limits)
    requires Tick(w, first, limits).1 && Late(between + [second], limits)
    requires Tick(After(Tick(w, first, limits).0, between, limits), second, limits).1
    ensures |between| + 1 >= 2 * (limits.count - 1) && |between| + 1 >= 2
  {
    NoFloodBefore(Tick(w, first, limits).0, between, second, limits);
  }

  lemma {:induction false} Fills(w: Window, now: int, k: nat, limits: Limits)
    requires w.count + k < limits.count
    ensures After(w, seq(k, _ => now), limits) == Window(w.count + k, w.start)
    decreases k
  {
    if k > 0 {
      assert seq(k, _ => now)[1..] == seq(k - 1, _ => now);
      Fills(Window(w.count + 1, w.start), now, k - 1, limits);
    }
  }

  lemma {:induction false} AfterTwo(w: Window, a: seq<int>, b: seq<int>, limits: Limits)
    ensures After(w, a + b, limits) == After(After(w, a, limits), b, limits)
    decreases |a|
  {
    if a == [] {
      assert a + b == b;
    } else {
      assert (a + b)[1..] == a[1..] + b;
      AfterTwo(Tick(w, a[0], limits).0, a[1..], b, limits);
    }
  }

  /** The bound is met for every count and rate: a burst floods, then its window fills once from 0
      and once more. */
  lemma ApartIsTight(limits: Limits, now: int) returns (w: Window, between: seq<int>)
    requires limits.count >= 2 && Late([now], limits)
    ensures Tick(w, now, limits).1 && Late(between + [now], limits)
    ensures Tick(After(Tick(w, now, limits).0, between, limits), now, limits).1
    ensures |between| + 1 == 2 * (limits.count - 1)
  {
    assert [now][0] == now;
    var n := limits.count - 1;
    w := Window(n, now);
    var once, again := seq(n - 1, _ => now), seq(n - 1, _ => now);
    between := once + ([now] + again);
    var w1 := Tick(w, now, limits).0;
    Fills(w1, now, n - 1, limits);
    AfterTwo(w1, once, [now] + again, limits);
    assert ([now] + again)[1..] == again;
    Fills(Window(1, now), now, n - 1, limits);
  }
}
