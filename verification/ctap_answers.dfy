/** Which requests are answered, and with which credentials, in terms of the request alone. */
module CtapAnswers {
  import opened CtapAssertions

  // ----- the allow list -----

  /** The credentials of an allow list. */
  function Listed(items: seq<Item>): (s: seq<Cred>)
    ensures |s| == |items|
  {
    seq(|items|, i requires 0 <= i < |items| => if items[i].Readable? then items[i].cred else items[i].left)
  }

  ghost predicate AllReadable(items: seq<Item>) {
    forall i :: 0 <= i < |items| ==> items[i].Readable?
  }

  /** A list is read as far as there is room, up to the first entry that cannot be read; that is all of it exactly
      when every entry can be read and has room. */
  lemma {:induction false} ReadListExactly(items: seq<Item>, room: nat)
    ensures var r := ReadList(items, room);
      && (r.1 <==> |items| <= room && AllReadable(items))
      && r.0 == Listed(items)[..|r.0|]
      && (forall i :: 0 <= i < |r.0| - 1 ==> items[i].Readable?)
      && (|r.0| == |items| || |r.0| == room || (|r.0| > 0 && items[|r.0| - 1].Unreadable?))
    decreases |items|
  {
    if items != [] && room > 0 && items[0].Readable? {
      var tail := items[1..];
      ReadListExactly(tail, room - 1);
      assert items == [items[0]] + tail;
      assert Listed(items) == [items[0].cred] + Listed(tail);
      var n := |ReadList(tail, room - 1).0|;
      forall i | 0 <= i < n ensures items[i].Readable? {
        if i > 0 {
          assert tail[i - 1] == items[i];
        }
      }
      assert n > 0 ==> items[n] == tail[n - 1];
      assert AllReadable(tail) ==> AllReadable(items) by {
        if AllReadable(tail) {
          forall i | 0 <= i < |items| ensures items[i].Readable? {
            assert i > 0 ==> items[i] == tail[i - 1];
          }
        }
      }
    }
  }

  /** What a request leaves at the front of the array before any check: nothing if the message cannot be read up
      to its list, else the list as far as it was read. */
  lemma WrittenExactly(a: Args)
    ensures var n := |Written(a)|;
      && (!a.readableBefore ==> n == 0)
      && n <= 20 && n <= |a.list|
      && Written(a) == Listed(a.list)[..n]
      && (a.readableBefore ==>
           && (forall i :: 0 <= i < n - 1 ==> a.list[i].Readable?)
           && (n == |a.list| || n == 20 || (n > 0 && a.list[n - 1].Unreadable?)))
  {
    ReadListExactly(a.list, 20);
  }

  // ----- valid credentials -----

  lemma {:induction false} ValidCounts(auth: Auth, list: seq<Cred>, c: Cred)
    ensures multiset(Valid(auth, list))[c] == if auth(c) then multiset(list)[c] else 0
    decreases |list|
  {
    if list != [] {
      var n := |list| - 1;
      ValidCounts(auth, list[..n], c);
      assert list == list[..n] + [list[n]];
    }
  }

  lemma {:induction false} ValidExists(auth: Auth, list: seq<Cred>)
    ensures Valid(auth, list) != [] <==> exists i :: 0 <= i < |list| && auth(list[i])
    decreases |list|
  {
    if list != [] {
      var n := |list| - 1;
      ValidExists(auth, list[..n]);
      if i :| 0 <= i < |list| && auth(list[i]) {
        assert i < n ==> list[..n][i] == list[i];
      }
    }
  }

  // ----- the answer -----

  /** What the message, the PIN and the parameters have to be. */
  ghost predicate WellMade(a: Args) {
    && a.readableBefore && AllReadable(a.list) && |a.list| <= 20 && a.readableAfter
    && (a.pin == NoPin || a.pin == RightPin)
    && a.rpPresent && a.hashPresent
    && a.mapFits && a.extensionsMade && a.encodes
  }

  /** A request is answered exactly when no lock is on, it is well made, and one of its credentials is valid or,
      without a list, there is a resident key. */
  lemma AnsweredExactlyWhen(auth: Auth, d: Device, s: Saved, a: Args)
    requires StateOk(s) && GoodRequest(auth, Assert(a))
    ensures Step(auth, d, s, Assert(a)).1.status == Ok <==>
      && !d.locked && !d.bootLocked
      && WellMade(a)
      && (if a.list == [] then a.resident != [] else exists i :: 0 <= i < |a.list| && auth(Listed(a.list)[i]))
  {
    AnsweredSaves(auth, d, s, a);
    ReadListExactly(a.list, 20);
    hide Step, GoodRequest, StateOk;
    if a.readableBefore && AllReadable(a.list) && |a.list| <= 20 && a.readableAfter {
      EntriesAre(a);
      ValidExists(auth, Entries(a));
      hide Entries, Valid, ReadList;
      if a.list == [] && a.resident != [] {
        ResidentIsValid(auth, a);
      }
    }
  }

  lemma ResidentIsValid(auth: Auth, a: Args)
    requires GoodRequest(auth, Assert(a)) && Parses(a) && a.resident != []
    ensures auth(a.resident[0])
  {
    hide Entries, Marked, IsSortOf;
  }

  /** The entries a request is answered from: its list, or the resident keys, 19 at most. */
  lemma EntriesAre(a: Args)
    requires a.readableBefore && AllReadable(a.list) && |a.list| <= 20 && a.readableAfter
    ensures Parses(a)
    ensures a.list != [] ==> Entries(a) == Listed(a.list)
    ensures a.list == [] && |a.resident| <= 19 ==> Entries(a) == a.resident
    ensures a.list == [] && |a.resident| > 19 ==> Entries(a) == a.resident[..19]
  {
    ReadListExactly(a.list, 20);
  }

  /** An answered request and the getNextAssertions after it give, each once, the valid credentials of its list,
      or without a list the resident keys, of which no more than 19 are looked at. */
  lemma AnsweredFrom(auth: Auth, d: Device, s: Saved, a: Args, c: Cred)
    requires StateOk(s) && GoodRequest(auth, Assert(a)) && Step(auth, d, s, Assert(a)).1.status == Ok
    ensures var (t, first) := Step(auth, d, s, Assert(a));
      var given := multiset(first.cred + Given(NextAnswers(auth, d, t, t.count)));
      && (a.list != [] ==> given[c] == if auth(c) then multiset(Listed(a.list))[c] else 0)
      && (a.list == [] && |a.resident| <= 19 ==> given[c] == multiset(a.resident)[c])
      && (a.list == [] && |a.resident| > 19 ==> given[c] == multiset(a.resident[..19])[c])
  {
    AnsweredExactlyWhen(auth, d, s, a);
    EntriesAre(a);
    AnsweredSaves(auth, d, s, a);
    EachValidOnce(auth, d, s, a, 0);
    CompletedStep(auth, d, s, a);
    ValidCounts(auth, Entries(a), c);
    hide Valid, Entries, IsSortOf, Marked, ReadList, Listed, Step, Given, NextAnswers, Saves;
    if a.list == [] && !auth(c) {
      NoneOf(a.resident, auth, c);
    }
  }

  lemma NoneOf(list: seq<Cred>, auth: Auth, c: Cred)
    requires !auth(c) && forall x :: x in list ==> auth(x)
    ensures multiset(list)[c] == 0 && (|list| > 19 ==> multiset(list[..19])[c] == 0)
  {
    assert c !in list;
    assert c !in multiset(list);
    if |list| > 19 {
      assert forall x :: x in list[..19] ==> x in list;
      assert c !in multiset(list[..19]);
    }
  }

  lemma AnsweredSaves(auth: Auth, d: Device, s: Saved, a: Args)
    requires StateOk(s) && GoodRequest(auth, Assert(a))
    ensures Step(auth, d, s, Assert(a)).1.status == Ok <==> Saves(auth, d, a) && a.encodes
  {
    hide Valid, Entries, IsSortOf, Marked, ReadList;
  }

  /** They come in the order of their counts, the lowest first. */
  lemma LowestCountFirst(auth: Auth, d: Device, s: Saved, a: Args, i: nat, j: nat)
    requires StateOk(s) && GoodRequest(auth, Assert(a)) && Step(auth, d, s, Assert(a)).1.status == Ok
    ensures var (t, first) := Step(auth, d, s, Assert(a));
      var answers := [first] + NextAnswers(auth, d, t, t.count);
      i <= j < |answers| ==>
        |answers[i].cred| == |answers[j].cred| == 1 && answers[i].cred[0].count <= answers[j].cred[0].count
  {
    OkStep(auth, d, s, a);
    hide Valid, Entries, GoodRequest, Saves, Step, Descending, NextAnswers, StateOk;
    var r := Step(auth, d, s, Assert(a));
    DrainedAnswers(auth, d, r.0, r.1, a.sorted);
    var answers := [r.1] + NextAnswers(auth, d, r.0, r.0.count);
    if i <= j < |answers| {
      FromTheEnd(answers, a.sorted, i, j);
    }
  }

  lemma OkStep(auth: Auth, d: Device, s: Saved, a: Args)
    requires StateOk(s) && GoodRequest(auth, Assert(a)) && Step(auth, d, s, Assert(a)).1.status == Ok
    ensures Descending(a.sorted)
    ensures var r := Step(auth, d, s, Assert(a));
      && StateOk(r.0) && r.0.lastCmd == GetAssertion
      && r.0.count < |a.sorted| <= |r.0.creds| && r.0.creds[..|a.sorted|] == a.sorted
      && r.1.cred == [a.sorted[r.0.count]]
  {
    AnsweredSaves(auth, d, s, a);
    SortedDescends(auth, d, a);
    CompletedStep(auth, d, s, a);
    hide Valid, Entries, Saves, Descending, IsSortOf, Marked;
  }

  lemma SortedDescends(auth: Auth, d: Device, a: Args)
    requires GoodRequest(auth, Assert(a)) && Saves(auth, d, a)
    ensures Descending(a.sorted)
  {
    hide Valid, Entries, Marked, IsSortOf, ReadList, Descending;
    SavedParses(auth, d, a);
    MarkedIsSmall(auth, Entries(a));
    SortDescends(a.sorted, Marked(auth, Entries(a)));
  }

  lemma DrainedAnswers(auth: Auth, d: Device, t: Saved, first: Answer, sorted: seq<Cred>)
    requires StateOk(t) && t.lastCmd == GetAssertion && t.count < |sorted| <= |t.creds| && t.creds[..|sorted|] == sorted
    requires first.cred == [sorted[t.count]]
    ensures var answers := [first] + NextAnswers(auth, d, t, t.count);
      forall k :: 0 <= k < |answers| ==> answers[k].cred == [sorted[|answers| - 1 - k]]
  {
    NextsDrain(auth, d, t, t.count);
    hide NextAnswers;
    var answers := [first] + NextAnswers(auth, d, t, t.count);
    forall k | 0 <= k < |answers| ensures answers[k].cred == [sorted[|answers| - 1 - k]] {
      assert sorted[|answers| - 1 - k] == t.creds[..|sorted|][|answers| - 1 - k];
    }
  }

  lemma FromTheEnd(answers: seq<Answer>, sorted: seq<Cred>, i: nat, j: nat)
    requires Descending(sorted) && i <= j < |answers| <= |sorted|
    requires forall k :: 0 <= k < |answers| ==> answers[k].cred == [sorted[|answers| - 1 - k]]
    ensures |answers[i].cred| == |answers[j].cred| == 1 && answers[i].cred[0].count <= answers[j].cred[0].count
  {
  }

  /** A getNextAssertion whose answer cannot be encoded ends the sequence: the entry is gone, and everything after
      it is refused. */
  lemma FailedNextEnds(auth: Auth, d: Device, s: Saved, n: nat)
    requires StateOk(s) && s.lastCmd == GetAssertion && s.count > 0
    ensures var (t, answer) := Step(auth, d, s, Next(false));
      && answer == FAILURE && t.count == s.count - 1 && t.creds == s.creds && t.hash == s.hash
      && (forall i :: 0 <= i < n ==> NextAnswers(auth, d, t, n)[i] == REFUSED)
  {
    RefusedForGood(auth, d, Step(auth, d, s, Next(false)).0, n);
  }
}
