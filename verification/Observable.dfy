/**
 The observer pattern of utility/observable.h: an intrusive, circular, doubly linked list of hooks
 closed by the list's own header.  An observer can unlink itself at any time, in particular while
 it is being notified.
 */
module Observable {

  /** The list hook inside an observer; unlinked hooks point nowhere. */
  class Hook {
    var previous: Hook?
    var next: Hook?

    constructor ()
      ensures !IsLinked()
    {
      previous, next := null, null;
    }

    predicate IsLinked()
      reads this
    {
      next != null
    }
  }

  ghost predicate Distinct<T>(s: seq<T>) {
    forall i, j :: 0 <= i < j < |s| ==> s[i] != s[j]
  }

  /** `list` without the elements of `gone`. */
  ghost function Without<T>(list: seq<T>, gone: seq<T>): seq<T> {
    if list == [] then []
    else (if list[0] in gone then [] else [list[0]]) + Without(list[1..], gone)
  }

  /** Whom an observer's callback detaches; `reaction` lists the observers whose callback detaches any. */
  function Detaches<T(==)>(reaction: map<T, seq<T>>, observer: T): seq<T> {
    if observer in reaction then reaction[observer] else []
  }

  /** `todo` notified one by one while the callbacks detach observers: who is called, and who remains in `list`. */
  ghost function Notification<T>(todo: seq<T>, list: seq<T>, reaction: map<T, seq<T>>): (seq<T>, seq<T>)
    decreases |todo|
  {
    if todo == [] then ([], list)
    else
      var gone := Detaches(reaction, todo[0]);
      WithoutLength(todo[1..], gone);
      var (visited, left) := Notification(Without(todo[1..], gone), Without(list, gone), reaction);
      ([todo[0]] + visited, left)
  }

  /** No callback detaches the observer that is next in line: the one the iterator already stands on. */
  ghost predicate NextStays<T>(todo: seq<T>, reaction: map<T, seq<T>>)
    decreases |todo|
  {
    todo == [] ||
    (var gone := Detaches(reaction, todo[0]);
     WithoutLength(todo[1..], gone);
     (|todo| > 1 ==> todo[1] !in gone) && NextStays(Without(todo[1..], gone), reaction))
  }

  // ----- Facts about `Without` -----

  lemma {:induction false} WithoutLength<T>(list: seq<T>, gone: seq<T>)
    ensures |Without(list, gone)| <= |list|
    ensures |Without(list, gone)| == |list| <==> (forall x :: x in list ==> x !in gone)
    ensures |Without(list, gone)| == |list| ==> Without(list, gone) == list
  {
    if list != [] {
      WithoutLength(list[1..], gone);
      assert list == [list[0]] + list[1..];
    }
  }

  lemma WithoutNone<T>(list: seq<T>, gone: seq<T>)
    requires forall x :: x in list ==> x !in gone
    ensures Without(list, gone) == list
  {
    WithoutLength(list, gone);
  }

  lemma {:induction false} WithoutMembers<T>(list: seq<T>, gone: seq<T>)
    ensures forall x :: x in Without(list, gone) <==> x in list && x !in gone
  {
    if list != [] {
      WithoutMembers(list[1..], gone);
      assert list == [list[0]] + list[1..];
    }
  }

  lemma {:induction false} WithoutConcat<T>(a: seq<T>, b: seq<T>, gone: seq<T>)
    ensures Without(a + b, gone) == Without(a, gone) + Without(b, gone)
  {
    if a == [] {
      assert a + b == b;
    } else {
      assert (a + b)[1..] == a[1..] + b;
      WithoutConcat(a[1..], b, gone);
    }
  }

  lemma {:induction false} WithoutTwice<T>(list: seq<T>, a: seq<T>, b: seq<T>)
    ensures Without(Without(list, a), b) == Without(list, a + b)
  {
    if list != [] {
      WithoutTwice(list[1..], a, b);
      WithoutConcat(if list[0] in a then [] else [list[0]], Without(list[1..], a), b);
    }
  }

  lemma WithoutHead<T>(list: seq<T>, gone: seq<T>)
    requires list != [] ==> list[0] !in gone
    ensures list != [] ==> Without(list, gone) != [] && Without(list, gone)[0] == list[0]
    ensures list == [] ==> Without(list, gone) == []
  {
  }

  /** In a list without repetition, removing an element removes its one place. */
  lemma {:induction false} WithoutOne<T>(list: seq<T>, k: nat)
    requires Distinct(list) && k < |list|
    ensures Without(list, [list[k]]) == list[..k] + list[k + 1..]
  {
    var x, tail := list[k], list[1..];
    if k == 0 {
      WithoutNone(tail, [x]);
    } else {
      assert tail[k - 1] == x;
      WithoutOne(tail, k - 1);
      assert [list[0]] + (tail[..k - 1] + tail[k..]) == list[..k] + list[k + 1..];
    }
  }

  // ----- Who is notified -----

  /** Everybody detached by the reactions of `visited`. */
  ghost function Targets<T>(visited: seq<T>, reaction: map<T, seq<T>>): seq<T> {
    if visited == [] then [] else Detaches(reaction, visited[0]) + Targets(visited[1..], reaction)
  }

  /** Callbacks detach nobody who still waits for the notification. */
  ghost predicate OnlyVisited<T>(list: seq<T>, reaction: map<T, seq<T>>) {
    forall i, j :: 0 <= i < j < |list| ==> list[j] !in Detaches(reaction, list[i])
  }

  lemma {:induction false} NotificationLength<T>(todo: seq<T>, list: seq<T>, reaction: map<T, seq<T>>)
    ensures |Notification(todo, list, reaction).0| <= |todo|
    decreases |todo|
  {
    if todo != [] {
      WithoutLength(todo[1..], Detaches(reaction, todo[0]));
      NotificationLength(Without(todo[1..], Detaches(reaction, todo[0])), Without(list, Detaches(reaction, todo[0])),
                         reaction);
    }
  }

  /** All are notified, each once and in order, exactly when no callback detaches somebody still waiting. */
  lemma {:induction false} NotifiesAllExact<T>(todo: seq<T>, list: seq<T>, reaction: map<T, seq<T>>)
    ensures Notification(todo, list, reaction).0 == todo <==> OnlyVisited(todo, reaction)
    ensures OnlyVisited(todo, reaction) ==> NextStays(todo, reaction)
    decreases |todo|
  {
    if todo != [] {
      var gone := Detaches(reaction, todo[0]);
      var rest := Without(todo[1..], gone);
      WithoutLength(todo[1..], gone);
      if forall x :: x in todo[1..] ==> x !in gone {
        assert rest == todo[1..];
        NotifiesAllExact(rest, Without(list, gone), reaction);
        assert Notification(todo, list, reaction).0 == [todo[0]] + Notification(rest, Without(list, gone), reaction).0;
        OnlyVisitedStep(todo, reaction);
      } else {
        NotificationLength(rest, Without(list, gone), reaction);
        var x :| x in todo[1..] && x in gone;
        var j :| 1 <= j < |todo| && todo[j] == x;
        assert !OnlyVisited(todo, reaction);
      }
    }
  }

  lemma OnlyVisitedStep<T>(todo: seq<T>, reaction: map<T, seq<T>>)
    requires todo != [] && forall x :: x in todo[1..] ==> x !in Detaches(reaction, todo[0])
    ensures OnlyVisited(todo, reaction) <==> OnlyVisited(todo[1..], reaction)
  {
    if OnlyVisited(todo[1..], reaction) {
      forall i, j | 0 <= i < j < |todo|
        ensures todo[j] !in Detaches(reaction, todo[i])
      {
        if i == 0 {
          assert todo[j] in todo[1..];
        } else {
          assert todo[1..][j - 1] !in Detaches(reaction, todo[1..][i - 1]);
        }
      }
    }
    if OnlyVisited(todo, reaction) {
      forall i, j | 0 <= i < j < |todo[1..]|
        ensures todo[1..][j] !in Detaches(reaction, todo[1..][i])
      {
        assert todo[j + 1] !in Detaches(reaction, todo[i + 1]);
      }
    }
  }

  /** What is left is the list without everybody whom a notified observer detached. */
  lemma {:induction false} NotificationLeaves<T>(todo: seq<T>, list: seq<T>, reaction: map<T, seq<T>>)
    ensures var (visited, left) := Notification(todo, list, reaction);
            left == Without(list, Targets(visited, reaction))
    decreases |todo|
  {
    if todo == [] {
      WithoutNone(list, []);
    } else {
      var gone := Detaches(reaction, todo[0]);
      WithoutLength(todo[1..], gone);
      NotificationLeaves(Without(todo[1..], gone), Without(list, gone), reaction);
      var visited := Notification(Without(todo[1..], gone), Without(list, gone), reaction).0;
      assert ([todo[0]] + visited)[1..] == visited;
      WithoutTwice(list, gone, Targets(visited, reaction));
    }
  }

  /**
   The promise of `notify_all`: when callbacks detach only themselves or observers already
   notified, everybody attached at entry is notified once, in order, and exactly the detached are
   gone afterwards.
   */
  lemma NotifyAllPromise<T>(list: seq<T>, reaction: map<T, seq<T>>)
    requires OnlyVisited(list, reaction)
    ensures NextStays(list, reaction)
    ensures Notification(list, list, reaction) == (list, Without(list, Targets(list, reaction)))
  {
    NotifiesAllExact(list, list, reaction);
    NotificationLeaves(list, list, reaction);
  }

  lemma NotificationDone<T>(list: seq<T>, reaction: map<T, seq<T>>)
    ensures Notification([], list, reaction) == ([], list)
  {
  }

  /** One round of `notify_all`, seen from the lists. */
  lemma NotificationStep<T>(done: seq<T>, todo: seq<T>, reaction: map<T, seq<T>>)
    requires todo != [] && NextStays(todo, reaction)
    ensures var gone := Detaches(reaction, todo[0]);
            var done', todo' := Without(done + [todo[0]], gone), Without(todo[1..], gone);
            && |todo'| < |todo|
            && Without(done + todo, gone) == done' + todo'
            && NextStays(todo', reaction)
            && (if |todo| == 1 then todo' == [] else todo' != [] && todo'[0] == todo[1])
            && var (rest, left) := Notification(todo', done' + todo', reaction);
               Notification(todo, done + todo, reaction) == ([todo[0]] + rest, left)
  {
    var gone := Detaches(reaction, todo[0]);
    assert done + todo == (done + [todo[0]]) + todo[1..];
    WithoutConcat(done + [todo[0]], todo[1..], gone);
    WithoutLength(todo[1..], gone);
    WithoutHead(todo[1..], gone);
  }

  /** Linked forwards and backwards in the order of `ring`. */
  ghost predicate Linked(ring: seq<Hook>)
    reads ring
  {
    forall i {:trigger ring[i].next} :: 0 <= i < |ring| - 1
        ==> ring[i].next == ring[i + 1] && ring[i + 1].previous == ring[i]
  }

  /** The ring of a list from which one observer was taken. */
  lemma RingWithout(header: Hook, list: seq<Hook>, k: nat)
    requires k < |list|
    ensures var ring := [header] + list + [header];
            var ring' := [header] + (list[..k] + list[k + 1..]) + [header];
            && |ring'| == |ring| - 1
            && (forall i :: 0 <= i <= k ==> ring'[i] == ring[i])
            && (forall i :: k < i < |ring'| ==> ring'[i] == ring[i + 1])
  {
  }

  /** Unlinking the observer at place `k` writes no other successor or predecessor in the ring. */
  lemma RingApart(header: Hook, list: seq<Hook>, k: nat)
    requires Distinct(list) && header !in list && k < |list|
    ensures var ring := [header] + list + [header];
            forall i {:trigger ring[i]} :: 0 <= i < |ring| - 1 && i != k && i != k + 1 ==>
              && ring[i] != ring[k] && ring[i] != ring[k + 1]
              && ring[i + 1] != ring[k + 1] && ring[i + 1] != ring[k + 2]
  {
    var ring := [header] + list + [header];
    forall i {:trigger ring[i]} | 0 <= i < |ring| - 1 && i != k && i != k + 1
      ensures ring[i] != ring[k] && ring[i] != ring[k + 1] && ring[i + 1] != ring[k + 1] && ring[i + 1] != ring[k + 2]
    {
      assert i > 0 ==> ring[i] == list[i - 1];
      assert k > 0 ==> ring[k] == list[k - 1];
      assert i + 1 <= |list| ==> ring[i + 1] == list[i];
      assert k + 2 <= |list| ==> ring[k + 2] == list[k + 1];
    }
  }

  class Observable {
    const header: Hook
    ghost var observers: seq<Hook>

    ghost function Ring(): seq<Hook>
      reads this
    {
      [header] + observers + [header]
    }

    ghost function Attached(): set<Hook>
      reads this
    {
      set o | o in observers
    }

    ghost predicate Valid()
      reads this, header, observers
    {
      && header !in observers
      && Distinct(observers)
      && Linked(Ring())
    }

    constructor ()
      ensures Valid() && observers == [] && fresh(header)
    {
      header := new Hook();
      observers := [];
      new;
      header.next := header;
      header.previous := header;
    }

    /** Attached observers are linked. */
    lemma AttachedIsLinked(observer: Hook)
      requires Valid() && observer in observers
      ensures observer.next != null && observer.previous != null
    {
      var k :| 0 <= k < |observers| && observers[k] == observer;
      assert Ring()[k + 1] == observer;
      assert Ring()[k].next == observer && observer.previous == Ring()[k];
    }

    /** `push_back`: link the observer in before the header. */
    method Attach(observer: Hook)
      requires Valid() && observer != header && !observer.IsLinked()
      modifies this`observers, header, Attached(), observer
      ensures Valid() && observers == old(observers) + [observer]
    {
      if observer in observers {
        AttachedIsLinked(observer);
      }
      ghost var ring := Ring();
      ghost var n := |observers|;
      assert ring[n].next == header && header.previous == ring[n];
      var last := header.previous;
      observer.previous := last;
      observer.next := header;
      last.next := observer;
      header.previous := observer;
      observers := observers + [observer];
      forall i | 0 <= i < |Ring()| - 1
        ensures Ring()[i].next == Ring()[i + 1] && Ring()[i + 1].previous == Ring()[i]
      {
        if i < n {
          assert ring[i].next == ring[i + 1];
          assert old(ring[i].next) == ring[i + 1] && old(ring[i + 1].previous) == ring[i];
        }
      }
    }

    /** `unlink`: close the ring over the observer at place `k`. */
    method Unlink(observer: Hook, ghost k: nat)
      requires Valid() && k < |observers| && observers[k] == observer
      modifies this`observers, header, Attached()
      ensures Valid() && observers == old(observers[..k] + observers[k + 1..])
      ensures !observer.IsLinked()
    {
      ghost var ring := Ring();
      RingApart(header, observers, k);
      RingWithout(header, observers, k);
      assert ring[k].next == ring[k + 1] == observer && ring[k + 1].next == ring[k + 2];
      var before, after := observer.previous, observer.next;
      before.next := after;
      after.previous := before;
      observer.previous := null;
      observer.next := null;
      observers := observers[..k] + observers[k + 1..];
      forall i {:trigger ring[i].next} | 0 <= i < |ring| - 1 && i != k && i != k + 1
        ensures ring[i].next == ring[i + 1] && ring[i + 1].previous == ring[i]
      {
        assert old(ring[i].next) == ring[i + 1] && old(ring[i + 1].previous) == ring[i];
      }
      ghost var ring' := Ring();
      assert ring'[k] == before && ring'[k + 1] == after && before.next == after && after.previous == before;
      forall i | 0 <= i < |ring'| - 1
        ensures ring'[i].next == ring'[i + 1] && ring'[i + 1].previous == ring'[i]
      {
        if i < k {
          assert ring'[i] == ring[i] && ring'[i + 1] == ring[i + 1] && ring[i].next == ring[i + 1];
        } else if i > k {
          assert ring'[i] == ring[i + 1] && ring'[i + 1] == ring[i + 2] && ring[i + 1].next == ring[i + 2];
        }
      }
    }

    /** Unlink the observer if it is linked. */
    method Detach(observer: Hook)
      requires Valid() && observer != header
      requires observer in observers || !observer.IsLinked()
      modifies this`observers, header, Attached()
      ensures Valid() && observers == Without(old(observers), [observer])
      ensures !observer.IsLinked()
      ensures Attached() <= old(Attached())
    {
      WithoutMembers(observers, [observer]);
      if observer.IsLinked() {
        ghost var k :| 0 <= k < |observers| && observers[k] == observer;
        WithoutOne(observers, k);
        Unlink(observer, k);
      } else {
        if observer in observers {
          AttachedIsLinked(observer);
        }
        WithoutNone(observers, [observer]);
      }
    }

    /** `size()` of a list that does not keep its size: walk it. */
    method GetObserverCount() returns (count: nat)
      requires Valid()
      ensures count == |observers|
    {
      count := 0;
      var iter := header.next;
      assert Ring()[0].next == Ring()[1];
      while iter != header
        invariant count <= |observers| && iter == Ring()[count + 1]
        decreases |observers| - count
      {
        assert Ring()[count + 1].next == Ring()[count + 2];
        iter := iter.next;
        count := count + 1;
      }
      assert forall i :: 0 <= i < |observers| ==> Ring()[i + 1] == observers[i] != header;
    }

    /** An observer can be detached if it is in this list or in none. */
    ghost predicate CanDetach(targets: seq<Hook>)
      reads this, targets
    {
      forall t :: t in targets ==> t != header && (t in observers || !t.IsLinked())
    }

    /** An observer's reaction to a notification: it detaches some observers. */
    method React(targets: seq<Hook>)
      requires Valid() && CanDetach(targets)
      modifies this`observers, header, Attached()
      ensures Valid() && observers == Without(old(observers), targets)
      ensures Attached() <= old(Attached())
      ensures forall o :: o in old(Attached()) && o !in observers ==> !o.IsLinked()
    {
      hide Without, Linked, Distinct, Valid;
      WithoutNone(observers, []);
      HeaderApart();
      for i := 0 to |targets|
        invariant Valid() && observers == Without(old(observers), targets[..i])
        invariant Attached() <= old(Attached())
        invariant forall t :: t in targets ==> t in observers || !t.IsLinked()
        invariant forall o :: o in old(Attached()) && o !in observers ==> !o.IsLinked()
      {
        WithoutTwice(old(observers), targets[..i], [targets[i]]);
        WithoutMembers(observers, [targets[i]]);
        assert targets[..i + 1] == targets[..i] + [targets[i]];
        Detach(targets[i]);
      }
      assert targets[..|targets|] == targets;
    }

    /**
     `notify_all`: step to the next observer before calling the current one.  `reaction` says whom
     each observer detaches when it is notified.
     */
    method NotifyAll(reaction: map<Hook, seq<Hook>>) returns (notified: seq<Hook>)
      requires Valid() && NextStays(observers, reaction)
      requires forall o :: o in observers ==> CanDetach(Detaches(reaction, o))
      modifies this`observers, header, Attached()
      ensures Valid()
      ensures (notified, observers) == Notification(old(observers), old(observers), reaction)
    {
      hide Notification, NextStays, Without, Linked, Distinct, Valid, CanDetach;
      notified := [];
      ghost var done: seq<Hook>, todo: seq<Hook> := [], observers;
      ghost var all := Notification(observers, observers, reaction);
      assert [] + observers == observers && [] + all.0 == all.0;
      var iter := First();
      HeaderApart();
      AttachedMembers();
      while iter != header
        invariant Valid() && observers == done + todo
        invariant iter == if todo == [] then header else todo[0]
        invariant Attached() <= old(Attached())
        invariant forall o :: o in old(Attached()) ==> CanDetach(Detaches(reaction, o))
        invariant NextStays(todo, reaction)
        invariant var (rest, left) := Notification(todo, observers, reaction); (notified + rest, left) == all
        decreases |todo|
      {
        AttachedMembers();
        NotificationStep(done, todo, reaction);
        ghost var gone := Detaches(reaction, iter);
        ghost var done': seq<Hook>, todo': seq<Hook> := Without(done + [iter], gone), Without(todo[1..], gone);
        ghost var rest := Notification(todo', done' + todo', reaction).0;
        assert (notified + [iter]) + rest == notified + ([iter] + rest);
        notified := notified + [iter];
        label Called:
        iter := Round(done, todo, iter, reaction);
        forall o | o in old(Attached())
          ensures CanDetach(Detaches(reaction, o))
        {
          StillCanDetach@Called(Detaches(reaction, o));
        }
        done, todo := done', todo';
      }
      AtHeader(done, todo);
      NotificationDone(observers, reaction);
      assert notified + [] == notified;
    }

    /** Those who were detached meanwhile are in no list. */
    twostate lemma StillCanDetach(targets: seq<Hook>)
      requires old(CanDetach(targets))
      requires forall o :: o in old(Attached()) && o !in observers ==> !o.IsLinked()
      requires forall t :: t in targets && t !in old(Attached()) && t != header ==> unchanged(t)
      ensures CanDetach(targets)
    {
    }

    /** The iterator is back at the header only when nobody is left. */
    lemma AtHeader(done: seq<Hook>, todo: seq<Hook>)
      requires Valid() && observers == done + todo
      requires header == if todo == [] then header else todo[0]
      ensures todo == []
    {
      assert forall i :: 0 <= i < |todo| ==> todo[i] in observers;
    }

    lemma HeaderApart()
      requires Valid()
      ensures header !in observers
    {
    }

    lemma AttachedMembers()
      ensures forall o :: o in Attached() <==> o in observers
    {
    }

    /** `begin()`. */
    method First() returns (iter: Hook)
      requires Valid()
      ensures iter == if observers == [] then header else observers[0]
    {
      assert Ring()[0].next == Ring()[1];
      iter := header.next;
    }

    /** One round: step on, then call the observer. */
    method Round(ghost done: seq<Hook>, ghost todo: seq<Hook>, observer: Hook, reaction: map<Hook, seq<Hook>>)
        returns (iter: Hook)
      requires Valid() && observers == done + todo && todo != [] && todo[0] == observer && NextStays(todo, reaction)
      requires CanDetach(Detaches(reaction, observer))
      modifies this`observers, header, Attached()
      ensures Valid() && Attached() <= old(Attached())
      ensures forall o :: o in old(Attached()) && o !in observers ==> !o.IsLinked()
      ensures var gone := Detaches(reaction, observer);
              var todo' := Without(todo[1..], gone);
              && observers == Without(old(observers), gone) == Without(done + [observer], gone) + todo'
              && iter == if todo' == [] then header else todo'[0]
    {
      NotificationStep(done, todo, reaction);
      iter := Successor(observer, |done|);
      assert iter == if |todo| == 1 then header else todo[1];
      var gone := Detaches(reaction, observer);
      React(gone);
    }

    /** If a callback detaches the next observer, and whoever else, the iterator stands on a hook that leads nowhere. */
    method RoundDetachingNext(observer: Hook, targets: seq<Hook>, ghost k: nat) returns (iter: Hook)
      requires Valid() && k + 1 < |observers| && observers[k] == observer
      requires CanDetach(targets) && observers[k + 1] in targets
      modifies this`observers, header, Attached()
      ensures Valid() && observers == Without(old(observers), targets)
      ensures iter == old(observers[k + 1]) && iter != header && iter.next == null
    {
      iter := Successor(observer, k);
      WithoutMembers(observers, targets);
      React(targets);
    }

    /**
     If a callback attaches a newcomer, it is put behind all who still wait and so is notified in the same
     round, unless it was the last observer's callback: then the iterator is past it already.
     */
    method RoundAttaching(observer: Hook, newcomer: Hook, ghost k: nat) returns (iter: Hook)
      requires Valid() && k < |observers| && observers[k] == observer
      requires newcomer != header && !newcomer.IsLinked()
      modifies this`observers, header, Attached(), newcomer
      ensures Valid() && observers == old(observers) + [newcomer]
      ensures iter == if k + 1 == |old(observers)| then header else observers[k + 1]
    {
      iter := Successor(observer, k);
      Attach(newcomer);
    }

    /** `++` on the observer at place `k`. */
    method Successor(observer: Hook, ghost k: nat) returns (iter: Hook)
      requires Valid() && k < |observers| && observers[k] == observer
      ensures iter == if k + 1 == |observers| then header else observers[k + 1]
    {
      assert Ring()[k + 1] == observer;
      assert Ring()[k + 1].next == Ring()[k + 2];
      iter := observer.next;
    }
  }
}
