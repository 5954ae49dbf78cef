/** The assertion state itself. A request under way is read, filtered and sorted in the same array that keeps
    the list saved for getNextAssertion. */
module CtapStateObject {
  import opened Arithmetic
  import opened CtapAssertions

  // ----- a sort, standing for the library's -----

  function Insert(c: Cred, s: seq<Cred>): (r: seq<Cred>)
    ensures |r| == |s| + 1
    decreases |s|
  {
    if s == [] || Compare(c, s[0]) <= 0 then [c] + s else [s[0]] + Insert(c, s[1..])
  }

  function SortDown(s: seq<Cred>): (r: seq<Cred>)
    ensures |r| == |s|
    decreases |s|
  {
    if s == [] then [] else Insert(s[0], SortDown(s[1..]))
  }

  lemma {:induction false} InsertKeepsOrder(c: Cred, s: seq<Cred>)
    requires Descending(s) && Small(s) && c.count < TWO_TO_THE_31
    ensures Descending(Insert(c, s)) && Small(Insert(c, s))
    ensures Insert(c, s)[0] == c || (s != [] && Insert(c, s)[0] == s[0])
    decreases |s|
  {
    hide Compare;
    if s != [] {
      CompareOrders(c, s[0]);
      if c.count < s[0].count {
        InsertKeepsOrder(c, s[1..]);
        var t := Insert(c, s[1..]);
        assert t[0].count <= s[0].count;
        forall j | 0 <= j < |t| ensures t[j].count <= s[0].count {
          assert j > 0 ==> t[j].count <= t[0].count;
        }
      }
    }
  }

  lemma {:induction false} InsertKeepsElements(c: Cred, s: seq<Cred>)
    ensures multiset(Insert(c, s)) == multiset{c} + multiset(s)
    decreases |s|
  {
    hide Compare;
    if s != [] && Compare(c, s[0]) > 0 {
      InsertKeepsElements(c, s[1..]);
      assert s == [s[0]] + s[1..];
    }
  }

  lemma {:induction false} SortDownDescends(s: seq<Cred>)
    requires Small(s)
    ensures Descending(SortDown(s)) && Small(SortDown(s)) && multiset(SortDown(s)) == multiset(s)
    decreases |s|
  {
    if s != [] {
      SortDownDescends(s[1..]);
      InsertKeepsOrder(s[0], SortDown(s[1..]));
      InsertKeepsElements(s[0], SortDown(s[1..]));
      assert s == [s[0]] + s[1..];
    }
  }

  /** Below 2^31 this is a sort by the comparator. */
  lemma SortDownSorts(s: seq<Cred>)
    requires Small(s)
    ensures IsSortOf(SortDown(s), s)
  {
    hide Compare, SortDown;
    SortDownDescends(s);
    var out := SortDown(s);
    forall i, j | 0 <= i < j < |out| ensures Compare(out[i], out[j]) <= 0 {
      CompareOrders(out[i], out[j]);
    }
  }

  /** The order the library's sort gives is one of those the results hold for. */
  lemma SortedIsGood(auth: Auth, r: Request)
    requires CountedRequest(auth, r) && (r.Assert? ==> r.args.sorted == SortDown(Marked(auth, Entries(r.args))))
    ensures GoodRequest(auth, r)
  {
    hide SortDown, IsSortOf, Marked, Entries;
    if r.Assert? && Parses(r.args) {
      MarkedIsSmall(auth, Entries(r.args));
      SortDownSorts(Marked(auth, Entries(r.args)));
    }
  }

  lemma OverStep(creds: seq<Cred>, front: seq<Cred>, c: Cred)
    requires |front| < |creds|
    ensures Over(creds, front)[|front| := c] == Over(creds, front + [c])
  {
  }

  lemma OverFacts(creds: seq<Cred>, front: seq<Cred>)
    requires |front| <= |creds|
    ensures Over(creds, front)[..|front|] == front
    ensures forall i :: |front| <= i < |creds| ==> Over(creds, front)[i] == creds[i]
    ensures front == [] ==> Over(creds, front) == creds
    ensures front == creds[..|front|] ==> Over(creds, front) == creds
  {
  }

  class CtapState {
    const creds: array<Cred>
    var count: nat
    var lastCmd: Cmd
    var hash: nat

    ghost predicate Valid()
      reads this, creds
    {
      StateOk(State())
    }

    ghost function State(): Saved
      reads this, creds
    {
      Saved(creds[..], count, lastCmd, hash)
    }

    constructor ()
      ensures Valid() && fresh(creds) && count == 0 && lastCmd == AnyOther
    {
      creds := new Cred[ALLOW_LIST_MAX_SIZE](_ => Cred(0, 0));
      count, lastCmd, hash := 0, AnyOther, 0;
    }

    /** Entries are put at the front of the array one by one. */
    method Store(list: seq<Cred>)
      requires |list| <= creds.Length
      modifies creds
      ensures creds[..] == Over(old(creds[..]), list)
    {
      hide Over;
      var i := 0;
      OverFacts(creds[..], []);
      while i < |list|
        invariant i <= |list|
        invariant creds[..] == Over(old(creds[..]), list[..i])
      {
        OverStep(old(creds[..]), list[..i], list[i]);
        assert list[..i] + [list[i]] == list[..i + 1];
        creds[i] := list[i];
        i := i + 1;
      }
      assert list[..|list|] == list;
    }

    /** The loop over the allow list: invalid entries lose their count, and the valid ones are counted. */
    method MarkInvalid(auth: Auth, credLen: nat) returns (valid: nat)
      requires Valid() && credLen <= ALLOW_LIST_MAX_SIZE
      modifies creds
      ensures var list := old(creds[..credLen]);
        && valid == |CtapAssertions.Valid(auth, list)|
        && creds[..] == Over(old(creds[..]), Marked(auth, list))
    {
      hide Over, Marked, CtapAssertions.Valid;
      ghost var all := creds[..];
      valid := 0;
      var i := 0;
      NoneMarked(auth);
      OverFacts(all, []);
      while i < credLen
        invariant i <= credLen && creds[..] == Over(all, Marked(auth, all[..i]))
        invariant valid == |CtapAssertions.Valid(auth, all[..i])|
      {
        MarkNext(auth, all, i);
        OverFacts(all, Marked(auth, all[..i]));
        OverStep(all, Marked(auth, all[..i]), Mark(auth, all[i]));
        assert creds[i] == creds[..][i] == all[i];
        SameSlot(creds[..], i);
        if !auth(creds[i]) {
          creds[i] := creds[i].(count := 0);
        } else {
          valid := valid + 1;
        }
        i := i + 1;
      }
    }

    /** ctap_filter_invalid_credentials: `credLen` entries of an allow list are in place, or none, and then the
        matching resident keys are. */
    method FilterInvalidCredentials(auth: Auth, credLen: nat, resident: seq<Cred>) returns (valid: nat, n: nat)
      requires Valid() && credLen <= ALLOW_LIST_MAX_SIZE
      requires forall c :: c in resident ==> auth(c)
      modifies creds
      ensures var list := Candidates(old(creds[..credLen]), resident);
        && valid == |CtapAssertions.Valid(auth, list)|
        && n == |list| <= ALLOW_LIST_MAX_SIZE
        && creds[..] == Over(old(creds[..]), SortDown(Marked(auth, list)))
    {
      hide Over, Marked, CtapAssertions.Valid, SortDown;
      ghost var all := creds[..];
      n := credLen;
      valid := MarkInvalid(auth, credLen);
      if credLen == 0 {
        NoneMarked(auth);
        OverFacts(all, []);
        n := Min(|resident|, ALLOW_LIST_MAX_SIZE - 1);
        AllValid(auth, resident[..n]);
        Store(resident[..n]);
        valid := n;
      }
      ghost var marked := Marked(auth, Candidates(all[..credLen], resident));
      OverFacts(all, marked);
      var out := SortDown(creds[..n]);
      Store(out);
      OverOver(all, marked, out);
    }

    method SaveCredentialList(n: nat, clientDataHash: nat)
      requires n < ALLOW_LIST_MAX_SIZE
      modifies this`count, this`hash
      ensures count == n && hash == if n > 0 then clientDataHash else old(hash)
    {
      if n > 0 {
        hash := clientDataHash;
      }
      count := n;
    }

    method PopCredential() returns (cred: seq<Cred>)
      requires Valid()
      modifies this`count
      ensures old(count) > 0 ==> count == old(count) - 1 && cred == [creds[count]]
      ensures old(count) == 0 ==> count == 0 && cred == []
    {
      if count > 0 {
        count := count - 1;
        return [creds[count]];
      } else {
        return [];
      }
    }

    /** parse_allow_list: entry by entry into the array, up to one that cannot be read or has no room. */
    method ParseAllowList(items: seq<Item>) returns (ok: bool, credLen: nat)
      requires Valid()
      modifies creds
      ensures var r := ReadList(items, ALLOW_LIST_MAX_SIZE);
        ok == r.1 && credLen == |r.0| && creds[..] == Over(old(creds[..]), r.0)
    {
      hide Over, ReadList;
      ghost var all := creds[..];
      ghost var whole := ReadList(items, ALLOW_LIST_MAX_SIZE);
      ghost var front: seq<Cred> := [];
      OverFacts(all, []);
      var i := 0;
      assert items[0..] == items && front + whole.0 == whole.0;
      while i < |items|
        invariant i <= |items| && i == |front| <= ALLOW_LIST_MAX_SIZE
        invariant creds[..] == Over(all, front)
        invariant var rest := ReadList(items[i..], ALLOW_LIST_MAX_SIZE - i); whole == (front + rest.0, rest.1)
      {
        ReadNext(items, i, ALLOW_LIST_MAX_SIZE - i);
        if i >= ALLOW_LIST_MAX_SIZE {
          assert front + [] == front;
          return false, i;
        }
        var cred := if items[i].Readable? then items[i].cred else items[i].left;
        OverStep(all, front, cred);
        creds[i] := cred;
        if items[i].Unreadable? {
          return false, i + 1;
        }
        ghost var rest := ReadList(items[i + 1..], ALLOW_LIST_MAX_SIZE - i - 1).0;
        assert front + ([cred] + rest) == (front + [cred]) + rest;
        front := front + [cred];
        i := i + 1;
      }
      ReadNone(items, ALLOW_LIST_MAX_SIZE - i);
      assert front + [] == front;
      return true, i;
    }

    /** ctap_parse_get_assertion, with the members of the message other than the allow list taken as given. */
    method ParseGetAssertion(a: Args) returns (ok: bool, credLen: nat)
      requires Valid()
      modifies creds
      ensures ok == Parses(a) && credLen == |Written(a)| && creds[..] == Over(old(creds[..]), Written(a))
    {
      hide Over, ReadList;
      OverFacts(creds[..], []);
      if !a.readableBefore {
        return false, 0;
      }
      ok, credLen := ParseAllowList(a.list);
      ok := ok && a.readableAfter;
    }

    /** ctap_get_assertion behind the locks: check after check, in the order of the source. */
    method DoGetAssertion(auth: Auth, ghost d: Device, a: Args) returns (answer: Answer)
      requires Valid() && CountedRequest(auth, Assert(a)) && !d.locked && !d.bootLocked
      requires a.sorted == SortDown(Marked(auth, Entries(a)))
      modifies creds, this`count, this`hash
      ensures GoodRequest(auth, Assert(a))
      ensures Valid() && (State(), answer) == Assertion(auth, d, old(State()), a)
    {
      hide SortDown, IsSortOf, Marked, CtapAssertions.Valid, Written, Parses, Over;
      SortedIsGood(auth, Assert(a));
      ghost var all := creds[..];
      var ok, credLen := ParseGetAssertion(a);
      if !ok {
        return FAILURE;
      }
      if a.pin == EmptyPin || a.pin == WrongPin {
        return FAILURE;
      }
      if !a.rpPresent || !a.hashPresent {
        return FAILURE;
      }
      SortedFits(auth, a);
      ReadFits(all, creds[..], a);
      var valid, n := FilterInvalidCredentials(auth, credLen, a.resident);
      OverOver(all, Written(a), a.sorted);
      if valid == 0 {
        return FAILURE;
      }
      if !a.mapFits || !a.extensionsMade {
        return FAILURE;
      }
      SortedFront(all, a.sorted, valid - 1);
      var cred := creds[valid - 1];
      SaveCredentialList(valid - 1, a.hash);
      if !a.encodes {
        return FAILURE;
      }
      return Answer(Ok, [cred], a.hash);
    }

    method DoGetNextAssertion(encodes: bool) returns (answer: Answer)
      requires Valid()
      modifies this`count
      ensures count == if old(count) > 0 then old(count) - 1 else 0
      ensures answer == if old(count) == 0 then REFUSED else if encodes then Answer(Ok, [creds[count]], hash)
          else FAILURE
    {
      var cred := PopCredential();
      if cred == [] {
        return REFUSED;
      }
      return if encodes then Answer(Ok, cred, hash) else FAILURE;
    }

    /** ctap_request */
    method CtapRequest(auth: Auth, d: Device, r: Request) returns (answer: Answer)
      requires Valid() && CountedRequest(auth, r)
      requires r.Assert? ==> r.args.sorted == SortDown(Marked(auth, Entries(r.args)))
      modifies this, creds
      ensures GoodRequest(auth, r)
      ensures Valid() && (State(), answer) == Step(auth, d, old(State()), r)
    {
      hide SortDown, IsSortOf, Marked, CtapAssertions.Valid, Over, PassesChecks, Saves, Entries;
      SortedIsGood(auth, r);
      var cmd;
      match r {
        case Assert(a) =>
          cmd := GetAssertion;
          if d.locked || d.bootLocked {
            answer := FAILURE;
          } else {
            answer := DoGetAssertion(auth, d, a);
          }
        case Next(encodes) =>
          cmd := GetNext;
          if lastCmd == GetAssertion {
            answer := DoGetNextAssertion(encodes);
            if answer.status == Ok {
              cmd := GetAssertion;
            }
          } else {
            answer := REFUSED;
          }
        case Other =>
          cmd := AnyOther;
          answer := Answer(Ok, [], 0);
      }
      lastCmd := cmd;
    }
  }

  lemma ReadNext(items: seq<Item>, i: nat, room: nat)
    requires i < |items|
    ensures ReadList(items[i..], room) ==
      if room == 0 then ([], false)
      else if items[i].Unreadable? then ([items[i].left], false)
      else ([items[i].cred] + ReadList(items[i + 1..], room - 1).0, ReadList(items[i + 1..], room - 1).1)
  {
    assert items[i..][1..] == items[i + 1..];
  }

  lemma ReadNone(items: seq<Item>, room: nat)
    ensures ReadList(items[|items|..], room) == ([], true)
  {
  }

  lemma ReadFits(before: seq<Cred>, after: seq<Cred>, a: Args)
    requires |before| == ALLOW_LIST_MAX_SIZE && after == Over(before, Written(a))
    ensures after[..|Written(a)|] == Written(a)
  {
  }

  lemma SortedFront(all: seq<Cred>, sorted: seq<Cred>, k: nat)
    requires k < |sorted| <= |all|
    ensures Over(all, sorted)[k] == sorted[k]
  {
  }

  lemma {:induction false} AllValid(auth: Auth, list: seq<Cred>)
    requires forall c :: c in list ==> auth(c)
    ensures Marked(auth, list) == list && CtapAssertions.Valid(auth, list) == list
    decreases |list|
  {
    if list != [] {
      var n := |list| - 1;
      AllValid(auth, list[..n]);
      assert list[n] in list && list == list[..n] + [list[n]];
    }
  }

  /** The sorted entries cover what was read before them. */
  lemma OverOver(creds: seq<Cred>, first: seq<Cred>, second: seq<Cred>)
    requires |first| <= |creds| && |second| <= |creds| && (|first| <= |second|)
    ensures Over(Over(creds, first), second) == Over(creds, second)
  {
  }

  lemma NoneMarked(auth: Auth)
    ensures Marked(auth, []) == [] && CtapAssertions.Valid(auth, []) == []
  {
  }

  lemma MarkNext(auth: Auth, all: seq<Cred>, i: nat)
    requires i < |all|
    ensures Marked(auth, all[..i + 1]) == Marked(auth, all[..i]) + [Mark(auth, all[i])]
    ensures |CtapAssertions.Valid(auth, all[..i + 1])| == |CtapAssertions.Valid(auth, all[..i])| +
        if auth(all[i]) then 1 else 0
  {
    assert all[..i + 1][..i] == all[..i];
  }

  lemma SameSlot(s: seq<Cred>, i: nat)
    requires i < |s|
    ensures s[i := s[i]] == s
  {
  }
}
