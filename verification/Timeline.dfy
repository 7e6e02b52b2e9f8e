/** Timed events of many keys, and the times of one of them. */
module Timeline {

  datatype Event = Event(key: string, at: int)

  ghost predicate Nondecreasing(s: seq<int>) {
    forall i, j :: 0 <= i < j < |s| ==> s[i] <= s[j]
  }

  /** The clock never steps back. */
  ghost predicate InOrder(events: seq<Event>) {
    forall i, j :: 0 <= i < j < |events| ==> events[i].at <= events[j].at
  }

  function Times(events: seq<Event>, key: string): seq<int> {
    if events == [] then []
    else Times(events[..|events| - 1], key) + if events[|events| - 1].key == key then [events[|events| - 1].at] else []
  }

  lemma {:induction false} TimesOrdered(events: seq<Event>, key: string)
    requires InOrder(events)
    ensures Nondecreasing(Times(events, key))
    ensures Times(events, key) != [] ==> Times(events, key)[|Times(events, key)| - 1] <= events[|events| - 1].at
  {
    if events != [] {
      TimesOrdered(events[..|events| - 1], key);
    }
  }
}
