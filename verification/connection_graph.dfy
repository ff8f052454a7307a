/** The connection graph of the legacy view (frontend/src/pages/Legacy.jsx,
    `loadUserAndConnections`): the signed-in user, everyone they are matched
    with, and everyone those users are matched with in turn, as a node list
    keyed by user id plus a list of links.

    The signed-in user and the match lookup `fetchUserMatches` are
    parameters: `auth` is `None` when nobody is signed in, and `fetch(id)`
    is `None` when the lookup for `id` answered with a failure. */
module ConnectionGraph {
  import opened Wrappers

  /** A user record nested in a match. */
  datatype User = User(id: string, name: Option<string>)

  /** A persisted match with its two participants; either nested user may
      be missing. */
  datatype MatchRecord = MatchRecord(userAId: string, userA: Option<User>, userB: Option<User>)

  /** The signed-in user: id and `user_metadata.full_name`. */
  datatype AuthUser = AuthUser(id: string, fullName: Option<string>)

  datatype Node = Node(id: string, name: string, isCurrentUser: bool)

  /** A link between two user ids. Each call to `addLink` creates a new
      object in the link `Set`, so equal pairs are never merged. */
  datatype Link = Link(source: string, target: string)

  datatype Graph = Graph(nodes: seq<Node>, links: seq<Link>)

  /** Why loading stops: the signed-in user's own lookup failed, or a
      match lacked the user whose `.id` was about to be read. */
  datatype LoadError = MatchesUnavailable | MissingUser

  datatype LoadOutcome = RedirectToLogin | LoadFailed(error: LoadError) | Loaded(graph: Graph)

  /** The graph under construction: the node map, the link set and the
      `processedUsers` set, each in insertion order. */
  datatype Builder = Builder(nodes: seq<Node>, links: seq<Link>, processed: seq<string>)

  const AnonymousName: string := "Anonymous"
  const CurrentUserFallbackName: string := "You"

  /** `s || fallback` on a possibly missing string: the empty string is falsy. */
  function OrDefault(s: Option<string>, fallback: string): string {
    if s.Some? && s.value != "" then s.value else fallback
  }

  function Init<T>(xs: seq<T>): seq<T>
    requires |xs| > 0
  {
    xs[..|xs| - 1]
  }

  function Last<T>(xs: seq<T>): T
    requires |xs| > 0
  {
    xs[|xs| - 1]
  }

  // ---------------------------------------------------------------------
  // The node map

  function Ids(ns: seq<Node>): set<string> {
    set i | 0 <= i < |ns| :: ns[i].id
  }

  /** The ids of `ns` in order: `Array.from(nodes.keys())`. */
  function NodeIds(ns: seq<Node>): (ids: seq<string>)
    ensures |ids| == |ns| && forall i :: 0 <= i < |ns| ==> ids[i] == ns[i].id
  {
    seq(|ns|, i requires 0 <= i < |ns| => ns[i].id)
  }

  predicate UniqueIds(ns: seq<Node>) {
    forall i, j :: 0 <= i < j < |ns| ==> ns[i].id != ns[j].id
  }

  lemma IdsCons(n: Node, ns: seq<Node>)
    ensures Ids([n] + ns) == {n.id} + Ids(ns)
  {
    var s := [n] + ns;
    forall x | x in Ids(ns) ensures x in Ids(s) {
      var i :| 0 <= i < |ns| && ns[i].id == x;
      assert s[i + 1] == ns[i];
    }
    assert s[0] == n;
  }

  /** `nodes.get(id)`: the entry stored under `id`, if any. */
  function Lookup(ns: seq<Node>, id: string): (r: Option<Node>)
    ensures r.Some? <==> id in Ids(ns)
    ensures r.Some? ==> r.value.id == id
  {
    if |ns| == 0 then None
    else
      IdsCons(ns[0], ns[1..]);
      assert ns == [ns[0]] + ns[1..];
      if ns[0].id == id then Some(ns[0]) else Lookup(ns[1..], id)
  }

  lemma UniqueIdsCons(h: Node, t: seq<Node>)
    ensures UniqueIds([h] + t) <==> UniqueIds(t) && h.id !in Ids(t)
  {
    var s := [h] + t;
    IdsCons(h, t);
    if UniqueIds(t) && h.id !in Ids(t) {
      forall i, j | 0 <= i < j < |s| ensures s[i].id != s[j].id {
        if i == 0 {
          assert s[j] == t[j - 1];
        } else {
          assert s[i] == t[i - 1] && s[j] == t[j - 1];
        }
      }
    }
    if UniqueIds(s) {
      forall i, j | 0 <= i < j < |t| ensures t[i].id != t[j].id {
        assert s[i + 1] == t[i] && s[j + 1] == t[j];
      }
      forall i | 0 <= i < |t| ensures t[i].id != h.id {
        assert s[0].id != s[i + 1].id;
        assert s[i + 1] == t[i];
      }
    }
  }

  lemma LookupCons(h: Node, t: seq<Node>, id: string)
    ensures Lookup([h] + t, id) == if h.id == id then Some(h) else Lookup(t, id)
  {
    var s := [h] + t;
    assert s[0] == h && s[1..] == t;
  }

  /** `nodes.set(n.id, n)`: an entry with the same id is replaced where it
      stands, otherwise `n` is appended; afterwards `n` is what `n.id`
      maps to and every other id maps to what it mapped to before. */
  function Upsert(ns: seq<Node>, n: Node): (r: seq<Node>)
    ensures Ids(r) == Ids(ns) + {n.id}
    ensures UniqueIds(ns) ==> UniqueIds(r)
    ensures Lookup(r, n.id) == Some(n)
    ensures forall id :: id != n.id ==> Lookup(r, id) == Lookup(ns, id)
  {
    if |ns| == 0 then
      UpsertIntoEmpty(n);
      [n]
    else if ns[0].id == n.id then
      assert ns == [ns[0]] + ns[1..];
      UpsertAtHead(ns[0], ns[1..], n);
      [n] + ns[1..]
    else
      var rest := Upsert(ns[1..], n);
      UpsertBehindHead(ns, n, rest);
      [ns[0]] + rest
  }

  lemma UpsertIntoEmpty(n: Node)
    ensures Ids([n]) == {n.id} && UniqueIds([n]) && Lookup([n], n.id) == Some(n)
    ensures forall id :: id != n.id ==> Lookup([n], id) == None
  {
    IdsCons(n, []);
    assert [n] == [n] + [];
  }

  lemma UpsertAtHead(h: Node, t: seq<Node>, n: Node)
    requires h.id == n.id
    ensures Ids([n] + t) == Ids([h] + t) + {n.id}
    ensures UniqueIds([h] + t) ==> UniqueIds([n] + t)
    ensures Lookup([n] + t, n.id) == Some(n)
    ensures forall id :: id != n.id ==> Lookup([n] + t, id) == Lookup([h] + t, id)
  {
    SameTailIds(h, n, t);
    LookupCons(n, t, n.id);
    forall id | id != n.id ensures Lookup([n] + t, id) == Lookup([h] + t, id) {
      LookupCons(n, t, id);
      LookupCons(h, t, id);
    }
  }

  lemma SameTailIds(h: Node, n: Node, t: seq<Node>)
    requires h.id == n.id
    ensures Ids([n] + t) == Ids([h] + t)
    ensures UniqueIds([h] + t) ==> UniqueIds([n] + t)
  {
    IdsCons(h, t);
    IdsCons(n, t);
    UniqueIdsCons(h, t);
    UniqueIdsCons(n, t);
  }

  lemma UpsertBehindHead(ns: seq<Node>, n: Node, rest: seq<Node>)
    requires |ns| > 0 && ns[0].id != n.id
    requires Ids(rest) == Ids(ns[1..]) + {n.id}
    requires UniqueIds(ns[1..]) ==> UniqueIds(rest)
    requires Lookup(rest, n.id) == Some(n)
    requires forall id :: id != n.id ==> Lookup(rest, id) == Lookup(ns[1..], id)
    ensures Ids([ns[0]] + rest) == Ids(ns) + {n.id}
    ensures UniqueIds(ns) ==> UniqueIds([ns[0]] + rest)
    ensures Lookup([ns[0]] + rest, n.id) == Some(n)
    ensures forall id :: id != n.id ==> Lookup([ns[0]] + rest, id) == Lookup(ns, id)
  {
    assert ns == [ns[0]] + ns[1..];
    IdsCons(ns[0], ns[1..]);
    IdsCons(ns[0], rest);
    UniqueIdsCons(ns[0], ns[1..]);
    UniqueIdsCons(ns[0], rest);
    LookupCons(ns[0], rest, n.id);
    forall id | id != n.id ensures Lookup([ns[0]] + rest, id) == Lookup(ns, id) {
      LookupCons(ns[0], rest, id);
      LookupCons(ns[0], ns[1..], id);
    }
  }

  /** Like `Map.prototype.set`, an upsert of a new id appends it at the end. */
  lemma {:induction false} UpsertNewGoesLast(ns: seq<Node>, n: Node)
    requires n.id !in Ids(ns)
    ensures Upsert(ns, n) == ns + [n]
  {
    if |ns| > 0 {
      IdsCons(ns[0], ns[1..]);
      assert ns == [ns[0]] + ns[1..];
      UpsertNewGoesLast(ns[1..], n);
      assert [ns[0]] + (ns[1..] + [n]) == ns + [n];
    }
  }

  /** An upsert on a map with unique ids replaces the entry with the same
      id where it stands and leaves every other entry in its place; only a
      new id makes the list longer. */
  lemma {:induction false} UpsertReplacesInPlace(ns: seq<Node>, n: Node)
    requires UniqueIds(ns)
    ensures |Upsert(ns, n)| == |ns| + (if n.id in Ids(ns) then 0 else 1)
    ensures forall i :: 0 <= i < |ns| ==> Upsert(ns, n)[i] == (if ns[i].id == n.id then n else ns[i])
  {
    if |ns| > 0 {
      IdsCons(ns[0], ns[1..]);
      assert ns == [ns[0]] + ns[1..];
      var r := Upsert(ns, n);
      if ns[0].id == n.id {
        forall i | 0 < i < |ns| ensures ns[i].id != n.id {
          assert ns[0].id != ns[i].id;
        }
      } else {
        UpsertReplacesInPlace(ns[1..], n);
        forall i | 0 <= i < |ns|
          ensures r[i] == (if ns[i].id == n.id then n else ns[i])
        {
          if i > 0 {
            assert r[i] == Upsert(ns[1..], n)[i - 1];
            assert ns[1..][i - 1] == ns[i];
          }
        }
      }
    }
  }

  /** On the ids in order, an upsert is `AddUnique`: a new id goes last,
      an existing one stays where it is. */
  lemma UpsertIdOrder(ns: seq<Node>, n: Node)
    requires UniqueIds(ns)
    ensures NodeIds(Upsert(ns, n)) == AddUnique(NodeIds(ns), n.id)
  {
    var ids := NodeIds(ns);
    assert n.id in ids <==> n.id in Ids(ns) by {
      if n.id in Ids(ns) {
        var i :| 0 <= i < |ns| && ns[i].id == n.id;
        assert ids[i] == n.id;
      }
    }
    if n.id in Ids(ns) {
      UpsertReplacesInPlace(ns, n);
    } else {
      UpsertNewGoesLast(ns, n);
    }
  }

  /** `addNode(user, isCurrentUser)`: nothing for a missing user; otherwise
      the user's entry is (re)written with a falsy name shown as
      "Anonymous". */
  function AddNode(ns: seq<Node>, u: Option<User>, isCurrentUser: bool): (r: seq<Node>)
    ensures u.None? ==> r == ns
    ensures u.Some? ==>
              && Ids(r) == Ids(ns) + {u.value.id}
              && Lookup(r, u.value.id) == Some(Node(u.value.id, OrDefault(u.value.name, AnonymousName), isCurrentUser))
              && (forall id :: id != u.value.id ==> Lookup(r, id) == Lookup(ns, id))
    ensures UniqueIds(ns) ==> UniqueIds(r)
  {
    match u
    case None => ns
    case Some(user) => Upsert(ns, Node(user.id, OrDefault(user.name, AnonymousName), isCurrentUser))
  }

  /** `addLink(sourceId, targetId)`: always a new link at the end. */
  function AddLink(links: seq<Link>, source: string, target: string): (r: seq<Link>)
    ensures |r| == |links| + 1 && r[..|links|] == links && r[|links|] == Link(source, target)
  {
    links + [Link(source, target)]
  }

  // ---------------------------------------------------------------------
  // Writes to the node map

  /** The entry `addNode(u)` writes for a user other than the current one. */
  function UserNode(u: User): Node {
    Node(u.id, OrDefault(u.name, AnonymousName), false)
  }

  function UserIds(us: seq<User>): set<string> {
    set u | u in us :: u.id
  }

  /** The ids of `us` in order. */
  function UserIdSeq(us: seq<User>): (ids: seq<string>)
    ensures |ids| == |us| && forall i :: 0 <= i < |us| ==> ids[i] == us[i].id
  {
    seq(|us|, i requires 0 <= i < |us| => us[i].id)
  }

  /** Position `k` of `us` holds a user with id `x` and no later one does. */
  predicate LastAt(us: seq<User>, k: int, x: string) {
    && 0 <= k < |us| && us[k].id == x
    && forall t :: k < t < |us| ==> us[t].id != x
  }

  /** The last user of `us` with id `x`: the write to `x` that survives
      when the users of `us` are added to the map in turn. */
  function LastWrite(us: seq<User>, x: string): (r: Option<User>)
    ensures r.Some? <==> x in UserIds(us)
    ensures r.Some? ==> r.value.id == x && r.value in us
  {
    if |us| == 0 then None
    else if Last(us).id == x then Some(Last(us))
    else
      var r := LastWrite(Init(us), x);
      assert us == Init(us) + [Last(us)];
      r
  }

  /** `LastWrite` picks exactly the user at the last position carrying the
      id: it is found at such a position, and any such position yields it. */
  lemma LastWriteIsLast(us: seq<User>, x: string)
    ensures LastWrite(us, x).Some? ==> exists k :: LastAt(us, k, x) && us[k] == LastWrite(us, x).value
    ensures forall k :: LastAt(us, k, x) ==> LastWrite(us, x) == Some(us[k])
  {
    LastWriteFound(us, x);
    forall k | LastAt(us, k, x) ensures LastWrite(us, x) == Some(us[k]) {
      assert us[k] in us;
      var k' :| LastAt(us, k', x) && us[k'] == LastWrite(us, x).value;
      assert k' == k;
    }
  }

  lemma {:induction false} LastWriteFound(us: seq<User>, x: string)
    ensures LastWrite(us, x).Some? ==> exists k :: LastAt(us, k, x) && us[k] == LastWrite(us, x).value
    decreases |us|
  {
    if |us| > 0 {
      if Last(us).id == x {
        assert LastAt(us, |us| - 1, x);
      } else if LastWrite(us, x).Some? {
        LastWriteFound(Init(us), x);
        var k :| LastAt(Init(us), k, x) && Init(us)[k] == LastWrite(us, x).value;
        LastAtExtend(us, k, x);
      }
    }
  }

  lemma LastAtExtend(us: seq<User>, k: int, x: string)
    requires |us| > 0 && LastAt(Init(us), k, x) && Last(us).id != x
    ensures LastAt(us, k, x) && us[k] == Init(us)[k]
  {
    forall t | k < t < |us| ensures us[t].id != x {
      if t < |us| - 1 {
        assert us[t] == Init(us)[t];
      }
    }
  }

  /** `ns` is `ns0` after `addNode(u)` for each `u` of `us` in turn: ids
      stay unique, the ids of `us` are added, each new one behind the
      existing ones in order of first write, an id of `us` holds the entry
      of its last write, and every other id holds what it held before. */
  ghost predicate Written(ns0: seq<Node>, ns: seq<Node>, us: seq<User>) {
    && (UniqueIds(ns0) ==> UniqueIds(ns))
    && (UniqueIds(ns0) ==> NodeIds(ns) == AddAll(NodeIds(ns0), UserIdSeq(us)))
    && Ids(ns) == Ids(ns0) + UserIds(us)
    && forall x :: Lookup(ns, x) ==
         if x in UserIds(us) then Some(UserNode(LastWrite(us, x).value)) else Lookup(ns0, x)
  }

  lemma WrittenNothing(ns: seq<Node>)
    ensures Written(ns, ns, [])
  {
    assert UserIds([]) == {};
    assert UserIdSeq([]) == [];
  }

  lemma WrittenOne(ns: seq<Node>, u: User)
    ensures Written(ns, AddNode(ns, Some(u), false), [u])
  {
    assert UserIds([u]) == {u.id};
    if UniqueIds(ns) {
      WrittenOneOrder(ns, u);
    }
  }

  lemma WrittenOneOrder(ns: seq<Node>, u: User)
    requires UniqueIds(ns)
    ensures NodeIds(AddNode(ns, Some(u), false)) == AddAll(NodeIds(ns), UserIdSeq([u]))
  {
    assert UserIdSeq([u]) == [] + [u.id];
    UpsertIdOrder(ns, UserNode(u));
  }

  lemma {:induction false} LastWriteAppend(us1: seq<User>, us2: seq<User>, x: string)
    ensures LastWrite(us1 + us2, x) == if x in UserIds(us2) then LastWrite(us2, x) else LastWrite(us1, x)
    decreases |us2|
  {
    if |us2| == 0 {
      assert us1 + us2 == us1;
    } else {
      var s := us1 + us2;
      assert Last(s) == Last(us2) && Init(s) == us1 + Init(us2);
      if Last(us2).id != x {
        LastWriteAppend(us1, Init(us2), x);
        assert us2 == Init(us2) + [Last(us2)];
      }
    }
  }

  /** Writes compose: `us1` then `us2` is `us1 + us2`. */
  lemma WrittenThen(ns0: seq<Node>, ns1: seq<Node>, ns2: seq<Node>, us1: seq<User>, us2: seq<User>)
    requires Written(ns0, ns1, us1) && Written(ns1, ns2, us2)
    ensures Written(ns0, ns2, us1 + us2)
  {
    var us := us1 + us2;
    assert UserIds(us) == UserIds(us1) + UserIds(us2) by {
      forall y | y in UserIds(us) ensures y in UserIds(us1) + UserIds(us2) {
        var u :| u in us && u.id == y;
      }
    }
    forall x ensures Lookup(ns2, x) ==
      if x in UserIds(us) then Some(UserNode(LastWrite(us, x).value)) else Lookup(ns0, x)
    {
      LastWriteAppend(us1, us2, x);
    }
    if UniqueIds(ns0) {
      WrittenThenOrder(NodeIds(ns0), NodeIds(ns1), NodeIds(ns2), us1, us2);
    }
  }

  lemma WrittenThenOrder(ids0: seq<string>, ids1: seq<string>, ids2: seq<string>, us1: seq<User>, us2: seq<User>)
    requires ids1 == AddAll(ids0, UserIdSeq(us1)) && ids2 == AddAll(ids1, UserIdSeq(us2))
    ensures ids2 == AddAll(ids0, UserIdSeq(us1 + us2))
  {
    assert UserIdSeq(us1 + us2) == UserIdSeq(us1) + UserIdSeq(us2);
    AddAllAppend(ids0, UserIdSeq(us1), UserIdSeq(us2));
  }

  // ---------------------------------------------------------------------
  // The set of processed users

  /** `set.add(x)` on a set kept in insertion order: `x` is appended unless
      it is already there. */
  function AddUnique(xs: seq<string>, x: string): (r: seq<string>)
    ensures forall y :: y in r <==> y in xs || y == x
    ensures |r| == |xs| + (if x in xs then 0 else 1) && r[..|xs|] == xs
    ensures x !in xs ==> r[|xs|] == x
    ensures NoDuplicates(xs) ==> NoDuplicates(r)
  {
    if x in xs then xs else xs + [x]
  }

  predicate NoDuplicates(xs: seq<string>) {
    forall i, j :: 0 <= i < j < |xs| ==> xs[i] != xs[j]
  }

  /** `set.add(y)` for each `y` of `ys` in turn. */
  function AddAll(xs: seq<string>, ys: seq<string>): seq<string> {
    if |ys| == 0 then xs else AddUnique(AddAll(xs, Init(ys)), Last(ys))
  }

  lemma {:induction false} AddAllAppend(xs: seq<string>, ys1: seq<string>, ys2: seq<string>)
    ensures AddAll(xs, ys1 + ys2) == AddAll(AddAll(xs, ys1), ys2)
    decreases |ys2|
  {
    if |ys2| == 0 {
      assert ys1 + ys2 == ys1;
    } else {
      assert Init(ys1 + ys2) == ys1 + Init(ys2) && Last(ys1 + ys2) == Last(ys2);
      AddAllAppend(xs, ys1, Init(ys2));
    }
  }

  /** The position of the first occurrence of `x` in `xs`. */
  function FirstIndex(xs: seq<string>, x: string): (k: nat)
    requires x in xs
    ensures k < |xs| && xs[k] == x
    ensures forall t :: 0 <= t < k ==> xs[t] != x
  {
    if xs[0] == x then 0 else FirstIndex(xs[1..], x) + 1
  }

  lemma FirstIndexIsFirst(xs: seq<string>, x: string, k: nat)
    requires k < |xs| && xs[k] == x
    requires forall t :: 0 <= t < k ==> xs[t] != x
    ensures FirstIndex(xs, x) == k
  {
  }

  /** Appending an element does not move any first occurrence. */
  lemma FirstIndexInit(xs: seq<string>, x: string)
    requires |xs| > 0 && x in Init(xs)
    ensures FirstIndex(xs, x) == FirstIndex(Init(xs), x)
  {
    FirstIndexIsFirst(xs, x, FirstIndex(Init(xs), x));
  }

  /** `new Set(xs)` iterated in insertion order: each element of `xs` once,
      ordered by first occurrence in `xs`. */
  function Distinct(xs: seq<string>): (d: seq<string>)
    ensures NoDuplicates(d)
    ensures forall x :: x in d <==> x in xs
    ensures forall i, j :: 0 <= i < j < |d| ==> FirstIndex(xs, d[i]) < FirstIndex(xs, d[j])
    ensures |d| <= |xs|
  {
    if |xs| == 0 then []
    else
      var pre := Distinct(Init(xs));
      InitMembers(xs);
      if Last(xs) in pre then
        DistinctStepKept(xs, pre);
        AddUnique(pre, Last(xs))
      else
        DistinctStepNew(xs, pre);
        AddUnique(pre, Last(xs))
  }

  lemma InitMembers(xs: seq<string>)
    requires |xs| > 0
    ensures forall x :: x in xs <==> x in Init(xs) || x == Last(xs)
  {
    assert xs == Init(xs) + [Last(xs)];
  }

  lemma DistinctStepKept(xs: seq<string>, pre: seq<string>)
    requires |xs| > 0
    requires forall i :: 0 <= i < |pre| ==> pre[i] in Init(xs)
    requires forall i, j :: 0 <= i < j < |pre| ==> FirstIndex(Init(xs), pre[i]) < FirstIndex(Init(xs), pre[j])
    ensures forall i :: 0 <= i < |pre| ==> pre[i] in xs
    ensures forall i, j :: 0 <= i < j < |pre| ==> FirstIndex(xs, pre[i]) < FirstIndex(xs, pre[j])
  {
    FirstIndexesInit(xs, pre);
  }

  lemma DistinctStepNew(xs: seq<string>, pre: seq<string>)
    requires |xs| > 0 && Last(xs) !in Init(xs)
    requires forall i :: 0 <= i < |pre| ==> pre[i] in Init(xs)
    requires forall i, j :: 0 <= i < j < |pre| ==> FirstIndex(Init(xs), pre[i]) < FirstIndex(Init(xs), pre[j])
    ensures var d := pre + [Last(xs)];
            forall i :: 0 <= i < |d| ==> d[i] in xs
    ensures var d := pre + [Last(xs)];
            forall i, j :: 0 <= i < j < |d| ==> FirstIndex(xs, d[i]) < FirstIndex(xs, d[j])
  {
    var d := pre + [Last(xs)];
    DistinctStepKept(xs, pre);
    FirstIndexIsFirst(xs, Last(xs), |xs| - 1);
    forall i, j | 0 <= i < j < |d| ensures FirstIndex(xs, d[i]) < FirstIndex(xs, d[j]) {
      assert d[i] == pre[i];
      if j < |pre| {
        assert d[j] == pre[j];
      } else {
        FirstIndexInit(xs, pre[i]);
      }
    }
  }

  lemma FirstIndexesInit(xs: seq<string>, pre: seq<string>)
    requires |xs| > 0 && forall i :: 0 <= i < |pre| ==> pre[i] in Init(xs)
    ensures forall i :: 0 <= i < |pre| ==> pre[i] in xs && FirstIndex(xs, pre[i]) == FirstIndex(Init(xs), pre[i])
  {
    forall i | 0 <= i < |pre| ensures pre[i] in xs && FirstIndex(xs, pre[i]) == FirstIndex(Init(xs), pre[i]) {
      FirstIndexInit(xs, pre[i]);
    }
  }

  /** Adding `ys` one by one to the distinct elements of `p` gives the
      distinct elements of `p + ys`. */
  lemma {:induction false} DistinctAddAll(p: seq<string>, ys: seq<string>)
    ensures AddAll(Distinct(p), ys) == Distinct(p + ys)
    decreases |ys|
  {
    if |ys| == 0 {
      assert p + ys == p;
    } else {
      assert Init(p + ys) == p + Init(ys) && Last(p + ys) == Last(ys);
      DistinctAddAll(p, Init(ys));
    }
  }

  // ---------------------------------------------------------------------
  // First-degree connections

  /** The other participant of a match of the signed-in user:
      `user_b` when the user is `user_a_id`, else `user_a`. */
  function Counterpart(m: MatchRecord, authId: string): Option<User> {
    if m.userAId == authId then m.userB else m.userA
  }

  predicate AllCounterpartsPresent(authId: string, ms: seq<MatchRecord>) {
    forall i :: 0 <= i < |ms| ==> Counterpart(ms[i], authId).Some?
  }

  /** The counterparts, one per match, in match order. */
  function Counterparts(authId: string, ms: seq<MatchRecord>): (us: seq<User>)
    requires AllCounterpartsPresent(authId, ms)
    ensures |us| == |ms|
    ensures forall i :: 0 <= i < |ms| ==> us[i] == Counterpart(ms[i], authId).value
  {
    if |ms| == 0 then [] else Counterparts(authId, Init(ms)) + [Counterpart(Last(ms), authId).value]
  }

  /** The counterparts' ids, one per match, in match order. */
  function CounterpartIds(authId: string, ms: seq<MatchRecord>): (ids: seq<string>)
    requires AllCounterpartsPresent(authId, ms)
    ensures |ids| == |ms|
    ensures forall i :: 0 <= i < |ms| ==> ids[i] == Counterpart(ms[i], authId).value.id
  {
    if |ms| == 0 then [] else CounterpartIds(authId, Init(ms)) + [Counterpart(Last(ms), authId).value.id]
  }

  /** The signed-in user's own entry: flagged as current and named by the
      full name, or else "You". */
  function StartNode(auth: AuthUser): Node {
    Node(auth.id, OrDefault(auth.fullName, CurrentUserFallbackName), true)
  }

  /** The builder holding only the signed-in user's own entry. */
  function Start(auth: AuthUser): (b: Builder)
    ensures b.links == [] && b.processed == []
    ensures Ids(b.nodes) == {auth.id} && UniqueIds(b.nodes) && NodeIds(b.nodes) == [auth.id]
    ensures forall x :: Lookup(b.nodes, x) == if x == auth.id then Some(StartNode(auth)) else None
  {
    var me := User(auth.id, Some(OrDefault(auth.fullName, CurrentUserFallbackName)));
    Builder(AddNode([], Some(me), true), [], [])
  }

  /** One iteration of the loop over the signed-in user's matches: the
      counterpart's entry is written, a link from the current user to it is
      appended, and its id is added to the processed set. Reading `.id` of
      a missing counterpart throws. */
  function PrimaryStep(b: Builder, authId: string, m: MatchRecord): (r: Result<Builder, LoadError>)
    ensures r.Success? <==> Counterpart(m, authId).Some?
    ensures r.Failure? ==> r.error == MissingUser
    ensures r.Success? ==>
              && r.value.links == b.links + [Link(authId, Counterpart(m, authId).value.id)]
              && r.value.processed == AddUnique(b.processed, Counterpart(m, authId).value.id)
              && Written(b.nodes, r.value.nodes, [Counterpart(m, authId).value])
              && Lookup(r.value.nodes, Counterpart(m, authId).value.id) == Some(UserNode(Counterpart(m, authId).value))
  {
    match Counterpart(m, authId)
    case None => Failure(MissingUser)
    case Some(other) =>
      WrittenOne(b.nodes, other);
      Success(Builder(
        AddNode(b.nodes, Some(other), false),
        AddLink(b.links, authId, other.id),
        AddUnique(b.processed, other.id)))
  }

  /** What the loop over the signed-in user's matches `ms` has built in
      `b`: one link per match from the current user to the counterpart, in
      match order; the processed set holding each counterpart once, in
      order of first appearance; and the signed-in user's entry followed by
      one write per counterpart. */
  ghost predicate PrimaryBuilt(auth: AuthUser, ms: seq<MatchRecord>, b: Builder)
    requires AllCounterpartsPresent(auth.id, ms)
  {
    var ids := CounterpartIds(auth.id, ms);
    && |b.links| == |ms|
    && (forall i :: 0 <= i < |ms| ==> b.links[i] == Link(auth.id, ids[i]))
    && b.processed == Distinct(ids)
    && Written(Start(auth).nodes, b.nodes, Counterparts(auth.id, ms))
  }

  lemma PrimaryStepKeepsBuilt(auth: AuthUser, ms: seq<MatchRecord>, b: Builder)
    requires |ms| > 0 && AllCounterpartsPresent(auth.id, ms)
    requires PrimaryBuilt(auth, Init(ms), b)
    ensures PrimaryStep(b, auth.id, Last(ms)).Success?
    ensures PrimaryBuilt(auth, ms, PrimaryStep(b, auth.id, Last(ms)).value)
  {
    var b' := PrimaryStep(b, auth.id, Last(ms)).value;
    PrimaryLinksKept(auth.id, ms, b.links, b'.links);
    PrimaryProcessedKept(auth.id, ms, b.processed, b'.processed);
    PrimaryNodesKept(Start(auth).nodes, auth.id, ms, b.nodes, b'.nodes);
  }

  lemma PrimaryLinksKept(authId: string, ms: seq<MatchRecord>, links: seq<Link>, links': seq<Link>)
    requires |ms| > 0 && AllCounterpartsPresent(authId, ms)
    requires |links| == |ms| - 1
    requires forall i :: 0 <= i < |ms| - 1 ==> links[i] == Link(authId, CounterpartIds(authId, Init(ms))[i])
    requires links' == links + [Link(authId, Counterpart(Last(ms), authId).value.id)]
    ensures |links'| == |ms|
    ensures forall i :: 0 <= i < |ms| ==> links'[i] == Link(authId, CounterpartIds(authId, ms)[i])
  {
    forall i | 0 <= i < |ms| ensures links'[i] == Link(authId, CounterpartIds(authId, ms)[i]) {
      if i < |ms| - 1 {
        assert Init(ms)[i] == ms[i];
      }
    }
  }

  lemma PrimaryProcessedKept(authId: string, ms: seq<MatchRecord>, p: seq<string>, p': seq<string>)
    requires |ms| > 0 && AllCounterpartsPresent(authId, ms)
    requires p == Distinct(CounterpartIds(authId, Init(ms)))
    requires p' == AddUnique(p, Counterpart(Last(ms), authId).value.id)
    ensures p' == Distinct(CounterpartIds(authId, ms))
  {
    var ids := CounterpartIds(authId, ms);
    assert Init(ids) == CounterpartIds(authId, Init(ms));
  }

  lemma PrimaryNodesKept(ns0: seq<Node>, authId: string, ms: seq<MatchRecord>, ns: seq<Node>, ns': seq<Node>)
    requires |ms| > 0 && AllCounterpartsPresent(authId, ms)
    requires Written(ns0, ns, Counterparts(authId, Init(ms)))
    requires Written(ns, ns', [Counterpart(Last(ms), authId).value])
    ensures Written(ns0, ns', Counterparts(authId, ms))
  {
    WrittenThen(ns0, ns, ns', Counterparts(authId, Init(ms)), [Counterpart(Last(ms), authId).value]);
  }

  lemma PrimaryBuiltStart(auth: AuthUser)
    ensures PrimaryBuilt(auth, [], Start(auth))
  {
    WrittenNothing(Start(auth).nodes);
  }

  lemma CounterpartsPresentInit(authId: string, ms: seq<MatchRecord>)
    requires |ms| > 0
    ensures AllCounterpartsPresent(authId, ms) <==>
              AllCounterpartsPresent(authId, Init(ms)) && Counterpart(Last(ms), authId).Some?
  {
    if AllCounterpartsPresent(authId, Init(ms)) && Counterpart(Last(ms), authId).Some? {
      forall i | 0 <= i < |ms| ensures Counterpart(ms[i], authId).Some? {
        if i < |ms| - 1 {
          assert ms[i] == Init(ms)[i];
        }
      }
    }
  }

  /** The current user's entry followed by the loop over their matches. It
      succeeds exactly when every match has its counterpart, and then it
      has built what `PrimaryBuilt` describes. */
  function ProcessPrimary(auth: AuthUser, ms: seq<MatchRecord>): (r: Result<Builder, LoadError>)
    ensures r.Success? <==> AllCounterpartsPresent(auth.id, ms)
    ensures r.Failure? ==> r.error == MissingUser
    ensures r.Success? ==> PrimaryBuilt(auth, ms, r.value)
  {
    if |ms| == 0 then
      PrimaryBuiltStart(auth);
      Success(Start(auth))
    else
      CounterpartsPresentInit(auth.id, ms);
      var prev :- ProcessPrimary(auth, Init(ms));
      var b :- PrimaryStep(prev, auth.id, Last(ms));
      PrimaryStepKeepsBuilt(auth, ms, prev);
      Success(b)
  }

  // ---------------------------------------------------------------------
  // Second-degree connections

  /** A possibly missing user as a sequence of zero or one users. */
  function UserSeq(u: Option<User>): seq<User> {
    if u.Some? then [u.value] else []
  }

  predicate BothUsersPresent(m: MatchRecord) {
    m.userA.Some? && m.userB.Some?
  }

  predicate AllUsersPresent(ms: seq<MatchRecord>) {
    forall i :: 0 <= i < |ms| ==> BothUsersPresent(ms[i])
  }

  /** Whether `m` names the user `id` as one of its two participants. */
  predicate Names(m: MatchRecord, id: string) {
    (m.userA.Some? && m.userA.value.id == id) || (m.userB.Some? && m.userB.value.id == id)
  }

  /** The node writes of the inner loop over `ms`: each match's `user_a`
      then its `user_b`. */
  function MatchWrites(ms: seq<MatchRecord>): seq<User> {
    if |ms| == 0 then [] else MatchWrites(Init(ms)) + (UserSeq(Last(ms).userA) + UserSeq(Last(ms).userB))
  }

  /** The links the inner loop over `ms` adds: one per match, from its
      `user_a` to its `user_b`. A match missing a user adds none here; such
      a match fails the load, so only lists without one reach a graph. */
  function MatchLinks(ms: seq<MatchRecord>): seq<Link> {
    if |ms| == 0 then []
    else MatchLinks(Init(ms)) + (if BothUsersPresent(Last(ms)) then [Link(Last(ms).userA.value.id, Last(ms).userB.value.id)] else [])
  }

  /** `b` is `b0` with the links `added` appended, the processed set as it
      was, and the node writes `writes` done in order. */
  ghost predicate Extended(b0: Builder, b: Builder, writes: seq<User>, added: seq<Link>) {
    && b.links == b0.links + added
    && b.processed == b0.processed
    && Written(b0.nodes, b.nodes, writes)
  }

  lemma ExtendedNothing(b: Builder)
    ensures Extended(b, b, [], [])
  {
    WrittenNothing(b.nodes);
  }

  lemma ExtendedThen(b0: Builder, b1: Builder, b2: Builder, w1: seq<User>, w2: seq<User>, l1: seq<Link>, l2: seq<Link>)
    requires Extended(b0, b1, w1, l1) && Extended(b1, b2, w2, l2)
    ensures Extended(b0, b2, w1 + w2, l1 + l2)
  {
    WrittenThen(b0.nodes, b1.nodes, b2.nodes, w1, w2);
    AppendAssoc(b0.links, l1, l2);
  }

  lemma AppendAssoc(a: seq<Link>, b: seq<Link>, c: seq<Link>)
    ensures (a + b) + c == a + (b + c)
  {
  }

  /** One iteration of the inner loop over a secondary user's matches:
      both users are written, `user_b` last, then the link between them is
      appended; reading `.id` of a missing user throws. */
  function SecondaryStep(b: Builder, m: MatchRecord): (r: Result<Builder, LoadError>)
    ensures r.Success? <==> BothUsersPresent(m)
    ensures r.Failure? ==> r.error == MissingUser
    ensures r.Success? ==>
              && Extended(b, r.value, [m.userA.value, m.userB.value], [Link(m.userA.value.id, m.userB.value.id)])
              && Lookup(r.value.nodes, m.userB.value.id) == Some(UserNode(m.userB.value))
              && (m.userA.value.id != m.userB.value.id ==>
                    Lookup(r.value.nodes, m.userA.value.id) == Some(UserNode(m.userA.value)))
  {
    var nodes := AddNode(AddNode(b.nodes, m.userA, false), m.userB, false);
    if m.userA.None? || m.userB.None? then Failure(MissingUser)
    else
      var r := Builder(nodes, AddLink(b.links, m.userA.value.id, m.userB.value.id), b.processed);
      SecondaryStepExtends(b, m.userA.value, m.userB.value, r);
      Success(r)
  }

  lemma SecondaryStepExtends(b: Builder, a: User, c: User, r: Builder)
    requires r.nodes == AddNode(AddNode(b.nodes, Some(a), false), Some(c), false)
    requires r.links == b.links + [Link(a.id, c.id)] && r.processed == b.processed
    ensures Extended(b, r, [a, c], [Link(a.id, c.id)])
  {
    WrittenTwo(b.nodes, a, c);
  }

  lemma WrittenTwo(ns: seq<Node>, a: User, c: User)
    ensures Written(ns, AddNode(AddNode(ns, Some(a), false), Some(c), false), [a, c])
  {
    var n1 := AddNode(ns, Some(a), false);
    WrittenOne(ns, a);
    WrittenOne(n1, c);
    WrittenThen(ns, n1, AddNode(n1, Some(c), false), [a], [c]);
    assert [a] + [c] == [a, c];
  }

  lemma UsersPresentInit(ms: seq<MatchRecord>)
    requires |ms| > 0
    ensures AllUsersPresent(ms) <==> AllUsersPresent(Init(ms)) && BothUsersPresent(Last(ms))
  {
    if AllUsersPresent(Init(ms)) && BothUsersPresent(Last(ms)) {
      forall i | 0 <= i < |ms| ensures BothUsersPresent(ms[i]) {
        if i < |ms| - 1 {
          assert ms[i] == Init(ms)[i];
        }
      }
    }
  }

  /** The inner loop over one secondary user's matches. It succeeds exactly
      when every match has both users, and then it has done the writes of
      `MatchWrites` and appended the links of `MatchLinks`. */
  function ProcessMatches(b: Builder, ms: seq<MatchRecord>): (r: Result<Builder, LoadError>)
    ensures r.Success? <==> AllUsersPresent(ms)
    ensures r.Failure? ==> r.error == MissingUser
    ensures r.Success? ==> Extended(b, r.value, MatchWrites(ms), MatchLinks(ms))
  {
    if |ms| == 0 then
      ExtendedNothing(b);
      Success(b)
    else
      UsersPresentInit(ms);
      var prev :- ProcessMatches(b, Init(ms));
      var m := Last(ms);
      var r :- SecondaryStep(prev, m);
      assert UserSeq(m.userA) + UserSeq(m.userB) == [m.userA.value, m.userB.value];
      ExtendedThen(b, prev, r, MatchWrites(Init(ms)), [m.userA.value, m.userB.value],
                   MatchLinks(Init(ms)), [Link(m.userA.value.id, m.userB.value.id)]);
      Success(r)
  }

  /** Whether the outer loop over processed users fetches and expands `id`:
      not the current user, and the lookup answered successfully. */
  predicate Expanded(authId: string, fetch: string -> Option<seq<MatchRecord>>, id: string) {
    id != authId && fetch(id).Some?
  }

  /** The node writes of the outer loop over `ids`: those of each expanded
      user's match list, in order. */
  function SecondaryWrites(authId: string, ids: seq<string>, fetch: string -> Option<seq<MatchRecord>>): seq<User> {
    if |ids| == 0 then []
    else SecondaryWrites(authId, Init(ids), fetch)
         + (if Expanded(authId, fetch, Last(ids)) then MatchWrites(fetch(Last(ids)).value) else [])
  }

  /** The links of the outer loop over `ids`: those of each expanded user's
      match list, in order. */
  function SecondaryLinks(authId: string, ids: seq<string>, fetch: string -> Option<seq<MatchRecord>>): seq<Link> {
    if |ids| == 0 then []
    else SecondaryLinks(authId, Init(ids), fetch)
         + (if Expanded(authId, fetch, Last(ids)) then MatchLinks(fetch(Last(ids)).value) else [])
  }

  /** Every match of every expanded user of `ids` names both its users. */
  predicate SecondaryComplete(authId: string, ids: seq<string>, fetch: string -> Option<seq<MatchRecord>>) {
    forall i :: 0 <= i < |ids| && Expanded(authId, fetch, ids[i]) ==> AllUsersPresent(fetch(ids[i]).value)
  }

  lemma SecondaryCompleteInit(authId: string, ids: seq<string>, fetch: string -> Option<seq<MatchRecord>>)
    requires |ids| > 0
    ensures SecondaryComplete(authId, ids, fetch) <==>
              && SecondaryComplete(authId, Init(ids), fetch)
              && (Expanded(authId, fetch, Last(ids)) ==> AllUsersPresent(fetch(Last(ids)).value))
  {
    if SecondaryComplete(authId, Init(ids), fetch)
       && (Expanded(authId, fetch, Last(ids)) ==> AllUsersPresent(fetch(Last(ids)).value))
    {
      forall i | 0 <= i < |ids| && Expanded(authId, fetch, ids[i])
        ensures AllUsersPresent(fetch(ids[i]).value)
      {
        if i < |ids| - 1 {
          assert ids[i] == Init(ids)[i];
        }
      }
    }
  }

  /** The outer loop over the processed users: the current user and users
      whose lookup failed are skipped, every other user's matches are
      walked. It succeeds exactly when all those matches name both users,
      and then it has done the writes of `SecondaryWrites` and appended the
      links of `SecondaryLinks`. */
  function ProcessSecondary(b: Builder, authId: string, ids: seq<string>, fetch: string -> Option<seq<MatchRecord>>): (r: Result<Builder, LoadError>)
    ensures r.Success? <==> SecondaryComplete(authId, ids, fetch)
    ensures r.Failure? ==> r.error == MissingUser
    ensures r.Success? ==> Extended(b, r.value, SecondaryWrites(authId, ids, fetch), SecondaryLinks(authId, ids, fetch))
  {
    if |ids| == 0 then
      ExtendedNothing(b);
      Success(b)
    else
      SecondaryCompleteInit(authId, ids, fetch);
      var prev :- ProcessSecondary(b, authId, Init(ids), fetch);
      if !Expanded(authId, fetch, Last(ids)) then
        SecondarySkipKeeps(b, prev, authId, ids, fetch);
        Success(prev)
      else
        var r :- ProcessMatches(prev, fetch(Last(ids)).value);
        SecondaryExpandKeeps(b, prev, r, authId, ids, fetch);
        Success(r)
  }

  lemma SecondarySkipKeeps(b: Builder, prev: Builder, authId: string, ids: seq<string>, fetch: string -> Option<seq<MatchRecord>>)
    requires |ids| > 0 && !Expanded(authId, fetch, Last(ids))
    requires Extended(b, prev, SecondaryWrites(authId, Init(ids), fetch), SecondaryLinks(authId, Init(ids), fetch))
    ensures Extended(b, prev, SecondaryWrites(authId, ids, fetch), SecondaryLinks(authId, ids, fetch))
  {
    var w := SecondaryWrites(authId, Init(ids), fetch);
    var l := SecondaryLinks(authId, Init(ids), fetch);
    assert w + [] == w && l + [] == l;
    assert SecondaryWrites(authId, ids, fetch) == w && SecondaryLinks(authId, ids, fetch) == l;
  }

  lemma SecondaryExpandKeeps(b: Builder, prev: Builder, r: Builder, authId: string, ids: seq<string>, fetch: string -> Option<seq<MatchRecord>>)
    requires |ids| > 0 && Expanded(authId, fetch, Last(ids))
    requires Extended(b, prev, SecondaryWrites(authId, Init(ids), fetch), SecondaryLinks(authId, Init(ids), fetch))
    requires Extended(prev, r, MatchWrites(fetch(Last(ids)).value), MatchLinks(fetch(Last(ids)).value))
    ensures Extended(b, r, SecondaryWrites(authId, ids, fetch), SecondaryLinks(authId, ids, fetch))
  {
    var ms := fetch(Last(ids)).value;
    ExtendedThen(b, prev, r, SecondaryWrites(authId, Init(ids), fetch), MatchWrites(ms),
                 SecondaryLinks(authId, Init(ids), fetch), MatchLinks(ms));
  }

  // ---------------------------------------------------------------------
  // Loading the whole graph

  type Fetch = string -> Option<seq<MatchRecord>>

  /** The node writes of a whole load, after the signed-in user's own
      entry: each counterpart in match order, then the secondary writes of
      the processed users. */
  function LoadWrites(a: AuthUser, ms: seq<MatchRecord>, fetch: Fetch): seq<User>
    requires AllCounterpartsPresent(a.id, ms)
  {
    Counterparts(a.id, ms) + SecondaryWrites(a.id, Distinct(CounterpartIds(a.id, ms)), fetch)
  }

  /** What a successful load has produced from the current user `a`, their
      matches `ms` and the lookup `fetch`: with `ids` the counterparts in
      match order and `order` the same without repeats (the processed set),
      - the links are one per primary match, from the current user to the
        counterpart, in match order, followed by the links of every
        expanded user's matches, in `order` and then match order;
      - node ids are unique: the current user's and those of every write,
        in order of first insertion;
      - an id that was written holds the entry of its last write, named by
        the user's name or "Anonymous" and not flagged as current; the
        current user's id, when never written, holds its own entry. */
  ghost predicate GraphOf(a: AuthUser, ms: seq<MatchRecord>, fetch: Fetch, g: Graph)
    requires AllCounterpartsPresent(a.id, ms)
  {
    var ids := CounterpartIds(a.id, ms);
    var order := Distinct(ids);
    var writes := LoadWrites(a, ms, fetch);
    && |g.links| == |ms| + |SecondaryLinks(a.id, order, fetch)|
    && (forall i :: 0 <= i < |ms| ==> g.links[i] == Link(a.id, ids[i]))
    && g.links[|ms|..] == SecondaryLinks(a.id, order, fetch)
    && UniqueIds(g.nodes)
    && Ids(g.nodes) == {a.id} + UserIds(writes)
    && NodeIds(g.nodes) == Distinct([a.id] + UserIdSeq(writes))
    && forall x :: Lookup(g.nodes, x) ==
         if x in UserIds(writes) then Some(UserNode(LastWrite(writes, x).value))
         else if x == a.id then Some(StartNode(a))
         else None
  }

  /** Loading succeeds when someone is signed in, their own lookup
      answers, each of their matches has its counterpart, and each match
      of each expanded counterpart names both users. */
  predicate LoadSucceeds(auth: Option<AuthUser>, fetch: Fetch) {
    && auth.Some?
    && fetch(auth.value.id).Some?
    && AllCounterpartsPresent(auth.value.id, fetch(auth.value.id).value)
    && SecondaryComplete(auth.value.id, Distinct(CounterpartIds(auth.value.id, fetch(auth.value.id).value)), fetch)
  }

  /** `loadUserAndConnections`: without a signed-in user the page
      redirects to the login; a failed lookup of the user's own matches,
      or a match missing a user whose id is read, fails the load;
      otherwise the graph is built from the user's matches and those of
      each distinct counterpart other than the user. */
  function LoadUserAndConnections(auth: Option<AuthUser>, fetch: Fetch): (r: LoadOutcome)
    ensures r == RedirectToLogin <==> auth.None?
    ensures auth.Some? && fetch(auth.value.id).None? ==> r == LoadFailed(MatchesUnavailable)
    ensures auth.Some? && fetch(auth.value.id).Some? ==> r.Loaded? || r == LoadFailed(MissingUser)
    ensures r.Loaded? <==> LoadSucceeds(auth, fetch)
    ensures r.Loaded? ==> GraphOf(auth.value, fetch(auth.value.id).value, fetch, r.graph)
  {
    match auth
    case None => RedirectToLogin
    case Some(a) =>
      match fetch(a.id)
      case None => LoadFailed(MatchesUnavailable)
      case Some(ms) =>
        match ProcessPrimary(a, ms)
        case Failure(e) => LoadFailed(e)
        case Success(b) =>
          match ProcessSecondary(b, a.id, b.processed, fetch)
          case Failure(e) => LoadFailed(e)
          case Success(b') =>
            LoadedGraphFacts(a, ms, fetch, b, b');
            Loaded(Graph(b'.nodes, b'.links))
  }

  lemma LoadedGraphFacts(a: AuthUser, ms: seq<MatchRecord>, fetch: Fetch, b: Builder, b': Builder)
    requires AllCounterpartsPresent(a.id, ms)
    requires PrimaryBuilt(a, ms, b)
    requires Extended(b, b', SecondaryWrites(a.id, b.processed, fetch), SecondaryLinks(a.id, b.processed, fetch))
    ensures GraphOf(a, ms, fetch, Graph(b'.nodes, b'.links))
  {
    var ids := CounterpartIds(a.id, ms);
    var writes := LoadWrites(a, ms, fetch);
    WrittenThen(Start(a).nodes, b.nodes, b'.nodes, Counterparts(a.id, ms), SecondaryWrites(a.id, b.processed, fetch));
    LoadedLinks(a.id, ids, b.links, b'.links);
    assert Distinct([a.id]) == [a.id] by {
      assert Init([a.id]) == [];
    }
    DistinctAddAll([a.id], UserIdSeq(writes));
  }

  lemma LoadedLinks(authId: string, ids: seq<string>, links: seq<Link>, links': seq<Link>)
    requires |links| == |ids| && |links| <= |links'| && links'[..|links|] == links
    requires forall i :: 0 <= i < |ids| ==> links[i] == Link(authId, ids[i])
    ensures forall i :: 0 <= i < |ids| ==> links'[i] == Link(authId, ids[i])
  {
    forall i | 0 <= i < |ids| ensures links'[i] == Link(authId, ids[i]) {
      assert links'[i] == links'[..|links|][i];
    }
  }

  /** On a loaded graph the current user's entry is flagged as current,
      and is the one built from the full name, exactly when no counterpart
      or secondary match names the user again; otherwise it is the
      "Anonymous"-defaulted entry of the last match that did. */
  lemma LoadedCurrentNode(auth: AuthUser, fetch: Fetch)
    requires LoadSucceeds(Some(auth), fetch)
    ensures var writes := LoadWrites(auth, fetch(auth.id).value, fetch);
            var g := LoadUserAndConnections(Some(auth), fetch).graph;
            && Lookup(g.nodes, auth.id).Some?
            && (Lookup(g.nodes, auth.id).value.isCurrentUser <==> auth.id !in UserIds(writes))
            && (auth.id !in UserIds(writes) ==> Lookup(g.nodes, auth.id).value == StartNode(auth))
  {
    var ms := fetch(auth.id).value;
    var r := LoadUserAndConnections(Some(auth), fetch);
    assert r.Loaded? && GraphOf(auth, ms, fetch, r.graph);
    assert Lookup(r.graph.nodes, auth.id) ==
           if auth.id in UserIds(LoadWrites(auth, ms, fetch)) then Some(UserNode(LastWrite(LoadWrites(auth, ms, fetch), auth.id).value))
           else Some(StartNode(auth));
  }

  lemma {:induction false} MatchWritesHas(ms: seq<MatchRecord>, k: nat, id: string)
    requires k < |ms| && Names(ms[k], id)
    ensures id in UserIds(MatchWrites(ms))
    decreases |ms|
  {
    var w := MatchWrites(ms);
    if k < |ms| - 1 {
      assert Init(ms)[k] == ms[k];
      MatchWritesHas(Init(ms), k, id);
      var u :| u in MatchWrites(Init(ms)) && u.id == id;
      assert u in w;
    } else {
      var m := Last(ms);
      var u := if m.userA.Some? && m.userA.value.id == id then m.userA.value else m.userB.value;
      assert u in UserSeq(m.userA) + UserSeq(m.userB);
      assert u in w;
    }
  }

  lemma {:induction false} SecondaryWritesHas(authId: string, ids: seq<string>, fetch: Fetch, j: nat, id: string)
    requires j < |ids| && Expanded(authId, fetch, ids[j])
    requires id in UserIds(MatchWrites(fetch(ids[j]).value))
    ensures id in UserIds(SecondaryWrites(authId, ids, fetch))
    decreases |ids|
  {
    var w := SecondaryWrites(authId, ids, fetch);
    if j < |ids| - 1 {
      assert Init(ids)[j] == ids[j];
      SecondaryWritesHas(authId, Init(ids), fetch, j, id);
      var u :| u in SecondaryWrites(authId, Init(ids), fetch) && u.id == id;
      assert u in w;
    } else {
      var u :| u in MatchWrites(fetch(Last(ids)).value) && u.id == id;
      assert u in w;
    }
  }

  lemma {:induction false} MatchLinksHas(ms: seq<MatchRecord>, k: nat)
    requires k < |ms| && BothUsersPresent(ms[k])
    ensures Link(ms[k].userA.value.id, ms[k].userB.value.id) in MatchLinks(ms)
    decreases |ms|
  {
    if k < |ms| - 1 {
      assert Init(ms)[k] == ms[k];
      MatchLinksHas(Init(ms), k);
    }
  }

  lemma {:induction false} SecondaryLinksHas(authId: string, ids: seq<string>, fetch: Fetch, j: nat, l: Link)
    requires j < |ids| && Expanded(authId, fetch, ids[j])
    requires l in MatchLinks(fetch(ids[j]).value)
    ensures l in SecondaryLinks(authId, ids, fetch)
    decreases |ids|
  {
    if j < |ids| - 1 {
      assert Init(ids)[j] == ids[j];
      SecondaryLinksHas(authId, Init(ids), fetch, j, l);
    }
  }

  /** On a loaded graph the links after the primary ones are exactly the
      secondary links of the processed users. */
  lemma LoadedSecondaryLinks(auth: AuthUser, fetch: Fetch)
    requires LoadSucceeds(Some(auth), fetch)
    ensures var ms := fetch(auth.id).value;
            var links := LoadUserAndConnections(Some(auth), fetch).graph.links;
            && |ms| <= |links|
            && links[|ms|..] == SecondaryLinks(auth.id, Distinct(CounterpartIds(auth.id, ms)), fetch)
  {
    var r := LoadUserAndConnections(Some(auth), fetch);
    assert r.Loaded? && GraphOf(auth, fetch(auth.id).value, fetch, r.graph);
  }

  /** `k` indexes a match of the expanded user at position `j` of the
      processed set of a load. */
  predicate SecondaryMatchAt(auth: AuthUser, fetch: Fetch, j: nat, k: nat)
    requires LoadSucceeds(Some(auth), fetch)
  {
    var order := Distinct(CounterpartIds(auth.id, fetch(auth.id).value));
    && j < |order| && Expanded(auth.id, fetch, order[j])
    && k < |fetch(order[j]).value|
  }

  /** The match `SecondaryMatchAt` designates; it names both users. */
  function SecondaryMatch(auth: AuthUser, fetch: Fetch, j: nat, k: nat): (m: MatchRecord)
    requires LoadSucceeds(Some(auth), fetch) && SecondaryMatchAt(auth, fetch, j, k)
    ensures BothUsersPresent(m)
  {
    var order := Distinct(CounterpartIds(auth.id, fetch(auth.id).value));
    fetch(order[j]).value[k]
  }

  /** On a loaded graph every match of an expanded processed user appears
      as a link from its `user_a` to its `user_b`. */
  lemma LoadedSecondaryLink(auth: AuthUser, fetch: Fetch)
    requires LoadSucceeds(Some(auth), fetch)
    ensures forall j: nat, k: nat :: SecondaryMatchAt(auth, fetch, j, k) ==>
              var m := SecondaryMatch(auth, fetch, j, k);
              Link(m.userA.value.id, m.userB.value.id) in LoadUserAndConnections(Some(auth), fetch).graph.links
  {
    var ms := fetch(auth.id).value;
    var order := Distinct(CounterpartIds(auth.id, ms));
    var links := LoadUserAndConnections(Some(auth), fetch).graph.links;
    LoadedSecondaryLinks(auth, fetch);
    forall j: nat, k: nat | SecondaryMatchAt(auth, fetch, j, k)
      ensures var m := SecondaryMatch(auth, fetch, j, k);
              Link(m.userA.value.id, m.userB.value.id) in links
    {
      var m := SecondaryMatch(auth, fetch, j, k);
      var l := Link(m.userA.value.id, m.userB.value.id);
      MatchLinksHas(fetch(order[j]).value, k);
      SecondaryLinksHas(auth.id, order, fetch, j, l);
      InSuffix(links, |ms|, l);
    }
  }

  lemma InSuffix(links: seq<Link>, n: nat, l: Link)
    requires n <= |links| && l in links[n..]
    ensures l in links
  {
    var t :| 0 <= t < |links[n..]| && links[n..][t] == l;
    assert links[n + t] == l;
  }

  /** Node writes overwrite: when a counterpart other than the current
      user is matched with the current user (as the counterpart's own
      lookup usually reports), the current user's entry is rewritten by the
      secondary pass and is no longer flagged as current. */
  lemma CurrentUserOverwrittenBySecondary(auth: AuthUser, fetch: Fetch, i: nat, k: nat)
    requires LoadSucceeds(Some(auth), fetch)
    requires var ms := fetch(auth.id).value;
             && i < |ms|
             && var c := Counterpart(ms[i], auth.id).value.id;
                && Expanded(auth.id, fetch, c)
                && k < |fetch(c).value|
                && Names(fetch(c).value[k], auth.id)
    ensures var g := LoadUserAndConnections(Some(auth), fetch).graph;
            Lookup(g.nodes, auth.id).Some? && !Lookup(g.nodes, auth.id).value.isCurrentUser
  {
    var ms := fetch(auth.id).value;
    var ids := CounterpartIds(auth.id, ms);
    var order := Distinct(ids);
    var c := ids[i];
    assert c in order;
    var j :| 0 <= j < |order| && order[j] == c;
    MatchWritesHas(fetch(c).value, k, auth.id);
    SecondaryWritesHas(auth.id, order, fetch, j, auth.id);
    var u :| u in SecondaryWrites(auth.id, order, fetch) && u.id == auth.id;
    assert u in LoadWrites(auth, ms, fetch);
    LoadedCurrentNode(auth, fetch);
  }
}
