/** Handing out the credentials of one getAssertion request, the first with its own answer and the rest by
    getNextAssertion. */
module CtapAssertions {
  import opened Arithmetic

  const ALLOW_LIST_MAX_SIZE: nat := 20

  const TWO_TO_THE_31: nat := 0x8000_0000
  const TWO_TO_THE_32: nat := 0x1_0000_0000

  type Count = c: nat | c < TWO_TO_THE_32

  /** A credential: which one it is, and its 32-bit sequence number, set to 0 to mark an invalid one. */
  datatype Cred = Cred(id: nat, count: Count)

  type Auth = Cred -> bool

  // ----- filtering and sorting -----

  function Mark(auth: Auth, c: Cred): Cred {
    if auth(c) then c else c.(count := 0)
  }

  function Marked(auth: Auth, list: seq<Cred>): (m: seq<Cred>)
    ensures |m| == |list|
    decreases |list|
  {
    if list == [] then [] else Marked(auth, list[..|list| - 1]) + [Mark(auth, list[|list| - 1])]
  }

  /** The valid credentials of a list, in order. */
  function Valid(auth: Auth, list: seq<Cred>): seq<Cred>
    decreases |list|
  {
    if list == [] then []
    else
      var front := Valid(auth, list[..|list| - 1]);
      if auth(list[|list| - 1]) then front + [list[|list| - 1]] else front
  }

  function Positive(list: seq<Cred>): seq<Cred>
    decreases |list|
  {
    if list == [] then []
    else
      var front := Positive(list[..|list| - 1]);
      if list[|list| - 1].count > 0 then front + [list[|list| - 1]] else front
  }

  ghost predicate Descending(s: seq<Cred>) {
    forall i, j :: 0 <= i < j < |s| ==> s[i].count >= s[j].count
  }

  /** cred_cmp_func: a difference of unsigned words, read as a signed one. */
  function Compare(a: Cred, b: Cred): int {
    var d := (b.count - a.count) % TWO_TO_THE_32;
    if d < TWO_TO_THE_31 then d else d - TWO_TO_THE_32
  }

  /** What qsort may leave: nothing that compares as out of order. */
  ghost predicate IsSortOf(out: seq<Cred>, list: seq<Cred>) {
    multiset(out) == multiset(list) && forall i, j :: 0 <= i < j < |out| ==> Compare(out[i], out[j]) <= 0
  }

  /** Valid credentials have counts above 0 and below 2^31. */
  ghost predicate Counted(auth: Auth, list: seq<Cred>) {
    forall c :: c in list && auth(c) ==> 0 < c.count < TWO_TO_THE_31
  }

  ghost predicate Small(list: seq<Cred>) {
    forall c :: c in list ==> c.count < TWO_TO_THE_31
  }

  /** Below 2^31 the comparator orders by descending count. */
  lemma CompareOrders(a: Cred, b: Cred)
    requires a.count < TWO_TO_THE_31 && b.count < TWO_TO_THE_31
    ensures Compare(a, b) == b.count - a.count
  {
  }

  lemma SortDescends(out: seq<Cred>, list: seq<Cred>)
    requires IsSortOf(out, list) && Small(list)
    ensures Descending(out) && Small(out)
  {
    hide Compare;
    forall c | c in out ensures c in list {
      assert c in multiset(out) && c in multiset(list);
    }
    forall i, j | 0 <= i < j < |out| ensures out[i].count >= out[j].count {
      CompareOrders(out[i], out[j]);
    }
  }

  /** From 2^31 on it does not: a valid credential is sure to be sorted before an invalid one exactly when its
      count is below. */
  lemma ValidBeforeInvalidExactlyWhen(good: Cred, bad: Cred)
    requires good.count > 0 && bad.count == 0
    ensures (forall out: seq<Cred> :: IsSortOf(out, [good, bad]) ==> |out| == 2 && out[0] == good)
      <==> good.count < TWO_TO_THE_31
  {
    hide IsSortOf;
    if good.count < TWO_TO_THE_31 {
      forall out: seq<Cred> | IsSortOf(out, [good, bad]) ensures |out| == 2 && out[0] == good {
        GoodComesFirst(out, good, bad);
      }
    } else {
      BadMayComeFirst(good, bad);
      assert [bad, good][0] != good;
    }
  }

  lemma GoodComesFirst(out: seq<Cred>, good: Cred, bad: Cred)
    requires IsSortOf(out, [good, bad]) && 0 < good.count < TWO_TO_THE_31 && bad.count == 0
    ensures |out| == 2 && out[0] == good
  {
    var list := [good, bad];
    CompareOrders(bad, good);
    hide Compare;
    SameSize(out, list);
    assert good in multiset(list);
    var first, second := out[0], out[1];
    assert first in multiset(out) && good in multiset(out);
    assert out == [first, second] && (good == first || good == second);
  }

  lemma BadMayComeFirst(good: Cred, bad: Cred)
    requires good.count >= TWO_TO_THE_31 && bad.count == 0
    ensures IsSortOf([bad, good], [good, bad])
  {
    assert Compare(bad, good) == good.count - TWO_TO_THE_32;
    hide Compare;
  }

  lemma {:induction false} MarkedIsSmall(auth: Auth, list: seq<Cred>)
    requires Counted(auth, list)
    ensures Small(Marked(auth, list))
    decreases |list|
  {
    if list != [] {
      var n := |list| - 1;
      MarkedIsSmall(auth, list[..n]);
      assert list[n] in list;
    }
  }

  lemma {:induction false} MarkedPositive(auth: Auth, list: seq<Cred>)
    requires Counted(auth, list)
    ensures Positive(Marked(auth, list)) == Valid(auth, list)
    decreases |list|
  {
    if list != [] {
      var n := |list| - 1;
      MarkedPositive(auth, list[..n]);
      assert Marked(auth, list)[..n] == Marked(auth, list[..n]);
      assert list[n] in list;
    }
  }

  lemma {:induction false} PositiveCounts(s: seq<Cred>, c: Cred)
    ensures multiset(Positive(s))[c] == if c.count > 0 then multiset(s)[c] else 0
    decreases |s|
  {
    if s != [] {
      var n := |s| - 1;
      PositiveCounts(s[..n], c);
      assert s == s[..n] + [s[n]];
    }
  }

  lemma {:induction false} PositiveOfSorted(s: seq<Cred>)
    requires Descending(s)
    ensures |Positive(s)| <= |s| && Positive(s) == s[..|Positive(s)|]
    ensures forall i :: |Positive(s)| <= i < |s| ==> s[i].count <= 0
    decreases |s|
  {
    hide Positive;
    if s == [] {
      PositiveOfNone();
    } else {
      var n := |s| - 1;
      var front := s[..n];
      PositiveOfSorted(front);
      var k := |Positive(front)|;
      PositiveStep(s);
      if k < n {
        assert front[k] == s[k] && s[n].count <= s[k].count <= 0;
        assert front[..k] == s[..k];
      } else {
        assert front[..k] == front && s == front + [s[n]];
      }
    }
  }

  lemma PositiveOfNone()
    ensures Positive([]) == []
  {
  }

  lemma PositiveStep(s: seq<Cred>)
    requires s != []
    ensures var n := |s| - 1;
      Positive(s) == Positive(s[..n]) + if s[n].count > 0 then [s[n]] else []
  {
  }

  /** However ties fall, after the sort the valid credentials are exactly the first ones. */
  lemma ValidComeFirst(auth: Auth, list: seq<Cred>, out: seq<Cred>)
    requires Counted(auth, list) && IsSortOf(out, Marked(auth, list))
    ensures |out| == |list| && |Valid(auth, list)| <= |out|
    ensures multiset(out[..|Valid(auth, list)|]) == multiset(Valid(auth, list))
  {
    MarkedPositive(auth, list);
    MarkedIsSmall(auth, list);
    SortDescends(out, Marked(auth, list));
    PositiveOfSorted(out);
    forall c: Cred ensures multiset(Positive(out))[c] == multiset(Valid(auth, list))[c] {
      PositiveCounts(out, c);
      PositiveCounts(Marked(auth, list), c);
    }
    assert multiset(Positive(out)) == multiset(Valid(auth, list));
    SameSize(Positive(out), Valid(auth, list));
    SameSize(out, Marked(auth, list));
  }

  lemma SameSize(a: seq<Cred>, b: seq<Cred>)
    requires multiset(a) == multiset(b)
    ensures |a| == |b|
  {
    assert |multiset(a)| == |a| && |multiset(b)| == |b|;
  }

  // ----- the saved state -----

  datatype Cmd = GetAssertion | GetNext | AnyOther

  /** getAssertionState: the array that both the request under way and the saved list live in, the number of
      saved entries, the last command, and the clientDataHash that the saved entries are to be signed with. */
  datatype Saved = Saved(creds: seq<Cred>, count: nat, lastCmd: Cmd, hash: nat)

  /** The PIN locks. */
  datatype Device = Device(locked: bool, bootLocked: bool)

  /** An entry of an allow list; one that cannot be read leaves something half-read behind. */
  datatype Item = Readable(cred: Cred) | Unreadable(left: Cred)

  datatype PinAuth = NoPin | EmptyPin | RightPin | WrongPin

  /** A getAssertion request: the allow list, whether the rest of the message can be read before and after it,
      the PIN authentication, which parameters are there, the resident keys for the relying party, the order the
      sort gives the entries, and whether the extensions and the answer can be made. */
  datatype Args = Args(
    readableBefore: bool,
    list: seq<Item>,
    readableAfter: bool,
    pin: PinAuth,
    rpPresent: bool,
    hashPresent: bool,
    hash: nat,
    resident: seq<Cred>,
    sorted: seq<Cred>,
    mapFits: bool,
    extensionsMade: bool,
    encodes: bool)

  datatype Request = Assert(args: Args) | Next(encodes: bool) | Other

  datatype Status = Ok | NotAllowed | Failed

  datatype Answer = Answer(status: Status, cred: seq<Cred>, hash: nat)

  const REFUSED := Answer(NotAllowed, [], 0)
  const FAILURE := Answer(Failed, [], 0)

  /** parse_allow_list: what is in the array afterwards, and whether all of it could be read and there was room. */
  function ReadList(items: seq<Item>, room: nat): (r: (seq<Cred>, bool))
    ensures |r.0| <= |items| && |r.0| <= room
    ensures r.1 ==> |r.0| == |items|
    decreases |items|
  {
    if items == [] then ([], true)
    else if room == 0 then ([], false)
    else
      match items[0]
      case Unreadable(left) => ([left], false)
      case Readable(c) =>
        var rest := ReadList(items[1..], room - 1);
        ([c] + rest.0, rest.1)
  }

  function Written(a: Args): (w: seq<Cred>)
    ensures |w| <= ALLOW_LIST_MAX_SIZE
  {
    if a.readableBefore then ReadList(a.list, ALLOW_LIST_MAX_SIZE).0 else []
  }

  predicate Parses(a: Args) {
    a.readableBefore && ReadList(a.list, ALLOW_LIST_MAX_SIZE).1 && a.readableAfter
  }

  /** The entries a request may be answered from: the allow list, or without one the resident keys that fit. */
  function Candidates(list: seq<Cred>, resident: seq<Cred>): seq<Cred> {
    if |list| > 0 then list else resident[..Min(|resident|, ALLOW_LIST_MAX_SIZE - 1)]
  }

  function Entries(a: Args): seq<Cred> {
    Candidates(Written(a), a.resident)
  }

  /** The checks up to the filter. */
  predicate PassesChecks(d: Device, a: Args) {
    && !d.locked && !d.bootLocked
    && Parses(a)
    && a.pin != EmptyPin && a.pin != WrongPin
    && a.rpPresent && a.hashPresent
  }

  /** A request that gets as far as saving its list: all its checks pass, some credential is valid, and the
      answer's map and extensions can be made. */
  predicate Saves(auth: Auth, d: Device, a: Args) {
    PassesChecks(d, a) && Valid(auth, Entries(a)) != [] && a.mapFits && a.extensionsMade
  }

  ghost predicate StateOk(s: Saved) {
    |s.creds| == ALLOW_LIST_MAX_SIZE && s.count < ALLOW_LIST_MAX_SIZE
  }

  /** Resident keys are valid, and the counts are small enough to be compared. */
  ghost predicate CountedRequest(auth: Auth, r: Request) {
    r.Assert? && Parses(r.args) ==>
      Counted(auth, Entries(r.args)) && forall c :: c in r.args.resident ==> auth(c)
  }

  ghost predicate GoodRequest(auth: Auth, r: Request) {
    && CountedRequest(auth, r)
    && (r.Assert? && Parses(r.args) ==> IsSortOf(r.args.sorted, Marked(auth, Entries(r.args))))
  }

  /** The front of the array is overwritten. */
  function Over(creds: seq<Cred>, front: seq<Cred>): (c: seq<Cred>)
    requires |front| <= |creds|
    ensures |c| == |creds|
  {
    front + creds[|front|..]
  }

  lemma SortedFits(auth: Auth, a: Args)
    requires GoodRequest(auth, Assert(a)) && Parses(a)
    ensures |a.sorted| == |Entries(a)| <= ALLOW_LIST_MAX_SIZE
    ensures |Valid(auth, Entries(a))| <= |a.sorted|
  {
    ValidComeFirst(auth, Entries(a), a.sorted);
  }

  /** ctap_get_assertion behind the locks. */
  ghost function Assertion(auth: Auth, d: Device, s: Saved, a: Args): (t: (Saved, Answer))
    requires StateOk(s) && GoodRequest(auth, Assert(a))
    ensures StateOk(t.0)
  {
    if d.locked || d.bootLocked then (s, FAILURE)
    else if !PassesChecks(d, a) then (s.(creds := Over(s.creds, Written(a))), FAILURE)
    else
      SortedFits(auth, a);
      var v := |Valid(auth, Entries(a))|;
      var filtered := s.(creds := Over(s.creds, a.sorted));
      if !Saves(auth, d, a) then (filtered, FAILURE)
      else
        var kept := filtered.(count := v - 1, hash := if v > 1 then a.hash else s.hash);
        (kept, if a.encodes then Answer(Ok, [a.sorted[v - 1]], a.hash) else FAILURE)
  }

  /** ctap_request as far as assertions are concerned. */
  ghost function Step(auth: Auth, d: Device, s: Saved, r: Request): (t: (Saved, Answer))
    requires StateOk(s) && GoodRequest(auth, r)
    ensures StateOk(t.0)
  {
    match r
    case Other => (s.(lastCmd := AnyOther), Answer(Ok, [], 0))
    case Next(encodes) =>
      if s.lastCmd != GetAssertion || s.count == 0 then (s.(lastCmd := GetNext), REFUSED)
      else
        var popped := s.(count := s.count - 1);
        if encodes then (popped.(lastCmd := GetAssertion), Answer(Ok, [s.creds[s.count - 1]], s.hash))
        else (popped.(lastCmd := GetNext), FAILURE)
    case Assert(a) =>
      var (t, answer) := Assertion(auth, d, s, a);
      (t.(lastCmd := GetAssertion), answer)
  }

  // ----- enumeration -----

  /** The answers to n getNextAssertion requests in a row. */
  ghost function NextAnswers(auth: Auth, d: Device, s: Saved, n: nat): (r: seq<Answer>)
    requires StateOk(s)
    ensures |r| == n
    decreases n
  {
    if n == 0 then []
    else [Step(auth, d, s, Next(true)).1] + NextAnswers(auth, d, Step(auth, d, s, Next(true)).0, n - 1)
  }

  ghost function AfterNexts(auth: Auth, d: Device, s: Saved, n: nat): (t: Saved)
    requires StateOk(s)
    ensures StateOk(t)
    decreases n
  {
    if n == 0 then s else AfterNexts(auth, d, Step(auth, d, s, Next(true)).0, n - 1)
  }

  /** The saved entries come out from the end, each once. */
  lemma {:induction false} NextsDrain(auth: Auth, d: Device, s: Saved, n: nat)
    requires StateOk(s) && s.lastCmd == GetAssertion && n <= s.count
    ensures forall i :: 0 <= i < n ==> NextAnswers(auth, d, s, n)[i] == Answer(Ok, [s.creds[s.count - 1 - i]], s.hash)
    ensures AfterNexts(auth, d, s, n) == s.(count := s.count - n)
    decreases n
  {
    if n > 0 {
      NextsDrain(auth, d, Step(auth, d, s, Next(true)).0, n - 1);
    }
  }

  /** With nothing left, or after another command, every getNextAssertion is refused, however many follow. */
  lemma {:induction false} RefusedForGood(auth: Auth, d: Device, s: Saved, n: nat)
    requires StateOk(s) && (s.count == 0 || s.lastCmd != GetAssertion)
    ensures forall i :: 0 <= i < n ==> NextAnswers(auth, d, s, n)[i] == REFUSED
    decreases n
  {
    if n > 0 {
      RefusedForGood(auth, d, Step(auth, d, s, Next(true)).0, n - 1);
    }
  }

  /** The credentials of a run of answers. */
  function Given(answers: seq<Answer>): seq<Cred>
    decreases |answers|
  {
    if answers == [] then [] else answers[0].cred + Given(answers[1..])
  }

  lemma GivenStep(answers: seq<Answer>, creds: seq<Cred>, n: nat)
    requires 0 < n <= |creds| && answers != [] && answers[0].cred == [creds[n - 1]]
    requires multiset(Given(answers[1..])) == multiset(creds[..n - 1])
    ensures multiset(Given(answers)) == multiset(creds[..n])
  {
    var last, front, rest := creds[n - 1], creds[..n - 1], Given(answers[1..]);
    assert Given(answers) == [last] + rest;
    hide Given;
    assert creds[..n] == front + [last];
    AtEitherEnd(last, front, rest);
  }

  lemma AtEitherEnd(c: Cred, front: seq<Cred>, rest: seq<Cred>)
    requires multiset(front) == multiset(rest)
    ensures multiset([c] + rest) == multiset(front + [c])
  {
  }

  lemma {:induction false} GivenOfDrained(answers: seq<Answer>, creds: seq<Cred>, n: nat, hash: nat)
    requires n <= |creds| && |answers| == n
    requires forall i :: 0 <= i < n ==> answers[i] == Answer(Ok, [creds[n - 1 - i]], hash)
    ensures multiset(Given(answers)) == multiset(creds[..n])
    decreases n
  {
    if n > 0 {
      hide Given;
      forall i | 0 <= i < n - 1 ensures answers[1..][i] == Answer(Ok, [creds[n - 2 - i]], hash) {
        assert answers[1..][i] == answers[i + 1];
      }
      GivenOfDrained(answers[1..], creds, n - 1, hash);
      GivenStep(answers, creds, n);
    }
  }

  /** A completed getAssertion with v valid credentials and v - 1 getNextAssertions together give each valid
      credential exactly once, all for the same request; every further one is not allowed. */
  lemma EachValidOnce(auth: Auth, d: Device, s: Saved, a: Args, later: nat)
    requires StateOk(s) && GoodRequest(auth, Assert(a)) && Saves(auth, d, a) && a.encodes
    ensures var valid := Valid(auth, Entries(a));
      var (t, first) := Step(auth, d, s, Assert(a));
      && |valid| > 0 && first.status == Ok && first.hash == a.hash
      && var answers := NextAnswers(auth, d, t, |valid| - 1);
      && (forall i :: 0 <= i < |answers| ==> answers[i].status == Ok && answers[i].hash == a.hash)
      && multiset(first.cred + Given(answers)) == multiset(valid)
      && var more := NextAnswers(auth, d, AfterNexts(auth, d, t, |valid| - 1), later);
      && (forall i :: 0 <= i < later ==> more[i] == REFUSED)
  {
    hide Valid, Positive, Marked, Given, IsSortOf, Step, Candidates, NextAnswers, AfterNexts, Entries, Saves;
    var v := |Valid(auth, Entries(a))|;
    CompletedStep(auth, d, s, a);
    var (t, first) := Step(auth, d, s, Assert(a));
    NextsDrain(auth, d, t, v - 1);
    var answers := NextAnswers(auth, d, t, v - 1);
    assert v > 1 ==> t.hash == a.hash;
    GivenOfDrained(answers, t.creds, v - 1, t.hash);
    assert Parses(a) by { SavedParses(auth, d, a); }
    ValidComeFirst(auth, Entries(a), a.sorted);
    LastAndRest(a.sorted, t.creds, v);
    assert multiset(first.cred + Given(answers)) == multiset(first.cred) + multiset(Given(answers));
    RefusedForGood(auth, d, AfterNexts(auth, d, t, v - 1), later);
  }

  lemma SavedParses(auth: Auth, d: Device, a: Args)
    requires Saves(auth, d, a)
    ensures Parses(a)
  {
  }

  lemma CompletedStep(auth: Auth, d: Device, s: Saved, a: Args)
    requires StateOk(s) && GoodRequest(auth, Assert(a)) && Saves(auth, d, a) && a.encodes
    ensures var v := |Valid(auth, Entries(a))|;
      var (t, first) := Step(auth, d, s, Assert(a));
      && 0 < v <= |a.sorted| <= |t.creds| && t.creds[..|a.sorted|] == a.sorted
      && t.count == v - 1 && t.lastCmd == GetAssertion && first == Answer(Ok, [a.sorted[v - 1]], a.hash)
      && (v > 1 ==> t.hash == a.hash)
  {
    hide Valid, Marked, IsSortOf, Candidates, Parses;
    SavedParses(auth, d, a);
    SortedFits(auth, a);
  }

  lemma LastAndRest(sorted: seq<Cred>, creds: seq<Cred>, v: nat)
    requires 0 < v <= |sorted| <= |creds| && creds[..|sorted|] == sorted
    ensures creds[..v - 1] == sorted[..v - 1]
    ensures multiset(sorted[..v]) == multiset([sorted[v - 1]]) + multiset(creds[..v - 1])
  {
    assert creds[..v - 1] == creds[..|sorted|][..v - 1];
    assert sorted[..v] == sorted[..v - 1] + [sorted[v - 1]];
  }

  // ----- what ends a sequence -----

  /** After an intervening command the next getNextAssertion is still answered for the old request exactly when
      the command is a getAssertion that a lock, a check of its message, the filter or its extensions turn away
      before it saves a list. After everything else it is refused, or answered for the new request. */
  lemma SequenceEndsExactlyWhen(auth: Auth, d: Device, later: Device, s: Saved, r: Request)
    requires StateOk(s) && GoodRequest(auth, r) && !r.Next?
    requires s.lastCmd == GetAssertion && s.count > 0 && (r.Assert? ==> r.args.hash != s.hash)
    ensures var next := Step(auth, later, Step(auth, d, s, r).0, Next(true)).1;
      && (next.status == Ok && next.hash == s.hash <==> r.Assert? && !Saves(auth, d, r.args))
      && (next.status == Ok && next.hash != s.hash <==>
          r.Assert? && Saves(auth, d, r.args) && |Valid(auth, Entries(r.args))| > 1)
      && next.status != Failed
  {
    if r.Assert? && PassesChecks(d, r.args) {
      SortedFits(auth, r.args);
    }
  }

  /** Which entry that is. A sequence left open goes on in the array as the request that was turned away has
      left it: untouched behind a lock, else with its allow list read over the front, or its sorted entries. */
  lemma NextEntry(auth: Auth, d: Device, later: Device, s: Saved, a: Args)
    requires StateOk(s) && GoodRequest(auth, Assert(a))
    requires s.lastCmd == GetAssertion && s.count > 0
    ensures var next := Step(auth, later, Step(auth, d, s, Assert(a)).0, Next(true)).1;
      if d.locked || d.bootLocked then next == Answer(Ok, [s.creds[s.count - 1]], s.hash)
      else if !PassesChecks(d, a) then
        next == Answer(Ok, [if s.count <= |Written(a)| then Written(a)[s.count - 1] else s.creds[s.count - 1]], s.hash)
      else if !Saves(auth, d, a) then
        next == Answer(Ok, [if s.count <= |a.sorted| then a.sorted[s.count - 1] else s.creds[s.count - 1]], s.hash)
      else if |Valid(auth, Entries(a))| > 1 then
        |Valid(auth, Entries(a))| <= |a.sorted| && next == Answer(Ok, [a.sorted[|Valid(auth, Entries(a))| - 2]], a.hash)
      else next == REFUSED
  {
    hide ReadList, IsSortOf, Marked, Valid, Candidates;
    if d.locked || d.bootLocked {
      hide PassesChecks, Saves;
    } else if !PassesChecks(d, a) {
      hide PassesChecks, Saves;
    } else {
      SortedFits(auth, a);
      hide PassesChecks, Saves, Parses, GoodRequest;
    }
  }

  /** An instance: one entry is left to give, the next request allows only a credential that is not valid, and is
      turned away; the getNextAssertion after it is answered with that entry. */
  lemma OpenSequenceIsOverwritten(auth: Auth, bad: Cred, s: Saved, d: Device, hash: nat)
    requires StateOk(s) && !auth(bad) && !d.locked && !d.bootLocked
    requires s.lastCmd == GetAssertion && s.count == 1
    ensures var marked := bad.(count := 0);
      var a := Args(true, [Readable(bad)], true, NoPin, true, true, hash, [], [marked], true, true, true);
      && GoodRequest(auth, Assert(a))
      && Step(auth, d, s, Assert(a)).1 == FAILURE
      && Step(auth, d, Step(auth, d, s, Assert(a)).0, Next(true)).1 == Answer(Ok, [marked], s.hash)
  {
    var marked := bad.(count := 0);
    var a := Args(true, [Readable(bad)], true, NoPin, true, true, hash, [], [marked], true, true, true);
    var list := [bad];
    assert a.list[1..] == [];
    assert ReadList(a.list[1..], ALLOW_LIST_MAX_SIZE - 1) == ([], true);
    assert [bad] + [] == list;
    assert ReadList(a.list, ALLOW_LIST_MAX_SIZE) == (list, true);
    assert Entries(a) == list;
    assert list[..|list| - 1] == [];
    assert Marked(auth, list) == [marked];
    assert Valid(auth, list) == [];
  }
}
