/** The profile service (app/services/profile_service.py): it joins the
    characteristic graph, whose User nodes are keyed by `str(user.id)`, with the
    relational `users` table. The session is replaced by the table's rows, in
    the order a query over them returns them. */
module Profiles {
  import opened Wrappers
  import opened Database
  import opened GraphDb

  /** The dict `get_user_profile` returns. */
  datatype Profile = Profile(id: int, username: string, email: string, characteristics: map<string, string>, createdAt: int)

  /** One entry of the lists `search_users` and `get_user_suggestions` return. */
  datatype UserMatch = UserMatch(id: int, username: string, characteristics: map<string, string>)

  /** The default `limit` of `get_user_suggestions`. */
  const DefaultSuggestionLimit: nat := 5

  /** `not exclude_user_id or user.id != exclude_user_id`: Python reads `None`
      and 0 as false, so either excludes nobody; any other id excludes exactly
      the user with that id. */
  function Admitted(u: User, exclude: Option<int>): (b: bool)
    ensures exclude.Some? && exclude.value != 0 ==> (b <==> u.id != exclude.value)
    ensures exclude.None? || exclude.value == 0 ==> b
  {
    exclude.None? || exclude.value == 0 || u.id != exclude.value
  }

  /** The user a graph key was written for: the first row whose `str(id)` is the key. */
  function FindByKey(table: seq<User>, key: string): (r: Option<User>)
    ensures r.None? <==> forall u | u in table :: UserKey(u.id) != key
    ensures r.Some? ==> r.value in table && UserKey(r.value.id) == key
  {
    if table == [] then None
    else if UserKey(table[0].id) == key then Some(table[0])
    else FindByKey(table[1..], key)
  }

  /** Looking a user up by its graph key is looking it up by id. */
  lemma {:induction false} FindByKeyOfId(table: seq<User>, id: int)
    ensures FindByKey(table, UserKey(id)) == FindById(table, id)
  {
    if table != [] {
      UserKeyInjective(table[0].id, id);
      FindByKeyOfId(table[1..], id);
    }
  }

  /** How a key of the graph's list is resolved to a row of the table. The
      service filters on `User.username == key`; the graph names every user by
      `str(user.id)`, which is what `ByGraphKey` looks up. */
  datatype Join = ByUsername | ByGraphKey

  /** The row `key` resolves to under `join`. */
  function Lookup(join: Join, table: seq<User>, key: string): (r: Option<User>)
    ensures r.Some? ==> r.value in table
  {
    match join
    case ByUsername => FindByUsername(table, key)
    case ByGraphKey => FindByKey(table, key)
  }

  /** A key of the graph's list together with the user it was resolved to. */
  datatype Hit = Hit(key: string, user: User)

  /** The keys of `hits`, in order. */
  function KeysOf(hits: seq<Hit>): (r: seq<string>)
    ensures |r| == |hits| && forall i | 0 <= i < |hits| :: r[i] == hits[i].key
  {
    seq(|hits|, i requires 0 <= i < |hits| => hits[i].key)
  }

  /** What the join loop of `search_users` and `get_user_suggestions` keeps from
      the graph's list of keys, in the graph's order: each key resolved to a
      user under `join`, unresolved keys dropped, excluded users dropped. */
  function Kept(join: Join, table: seq<User>, names: seq<string>, exclude: Option<int>): (r: seq<Hit>)
    ensures |r| <= |names|
    ensures forall h | h in r :: h.key in names && h.user in table && Admitted(h.user, exclude)
    decreases |names|
  {
    if names == [] then []
    else
      var init := names[..|names| - 1];
      var kept := Kept(join, table, init, exclude);
      assert forall name | name in init :: name in names;
      var user := Lookup(join, table, names[|names| - 1]);
      if user.Some? && Admitted(user.value, exclude) then kept + [Hit(names[|names| - 1], user.value)] else kept
  }

  /** Each hit's user is the user its key resolves to. */
  lemma {:induction false} KeptFound(join: Join, table: seq<User>, names: seq<string>, exclude: Option<int>)
    ensures forall h | h in Kept(join, table, names, exclude) :: Lookup(join, table, h.key) == Some(h.user)
    decreases |names|
  {
    if names != [] {
      KeptFound(join, table, names[..|names| - 1], exclude);
    }
  }

  /** The join after one more key: that key's hit is appended when its user exists and is admitted. */
  lemma KeptNext(join: Join, table: seq<User>, names: seq<string>, i: nat, exclude: Option<int>)
    requires i < |names|
    ensures var user := Lookup(join, table, names[i]);
            Kept(join, table, names[..i + 1], exclude)
              == if user.Some? && Admitted(user.value, exclude) then Kept(join, table, names[..i], exclude) + [Hit(names[i], user.value)]
                 else Kept(join, table, names[..i], exclude)
  {
    assert names[..i + 1][..i] == names[..i];
  }

  /** One more key keeps every hit so far and adds that key's hit if its user is admitted. */
  lemma KeptStep(join: Join, table: seq<User>, names: seq<string>, exclude: Option<int>)
    requires names != []
    ensures forall h | h in Kept(join, table, names[..|names| - 1], exclude) :: h in Kept(join, table, names, exclude)
    ensures var last := Lookup(join, table, names[|names| - 1]);
            last.Some? && Admitted(last.value, exclude) ==> Hit(names[|names| - 1], last.value) in Kept(join, table, names, exclude)
  {
  }

  /** No admitted user is lost: every key the graph returned that resolves to
      a user who is not excluded yields that user. */
  lemma {:induction false} KeptComplete(join: Join, table: seq<User>, names: seq<string>, exclude: Option<int>, name: string)
    requires name in names
    requires Lookup(join, table, name).Some? && Admitted(Lookup(join, table, name).value, exclude)
    ensures Hit(name, Lookup(join, table, name).value) in Kept(join, table, names, exclude)
    decreases |names|
  {
    var init := names[..|names| - 1];
    KeptStep(join, table, names, exclude);
    if name != names[|names| - 1] {
      assert names == init + [names[|names| - 1]];
      KeptComplete(join, table, init, exclude, name);
    }
  }

  /** `a` is a subsequence of `b`: `b` with some elements removed, order kept. */
  ghost predicate Embeds(a: seq<string>, b: seq<string>)
    decreases |b|
  {
    if a == [] then true
    else if b == [] then false
    else (a[|a| - 1] == b[|b| - 1] && Embeds(a[..|a| - 1], b[..|b| - 1])) || Embeds(a, b[..|b| - 1])
  }

  /** The join keeps the graph's order: the keys of the hits are a subsequence
      of the keys the graph returned. */
  lemma {:induction false} KeptInOrder(join: Join, table: seq<User>, names: seq<string>, exclude: Option<int>)
    ensures Embeds(KeysOf(Kept(join, table, names, exclude)), names)
    decreases |names|
  {
    if names != [] {
      var init := names[..|names| - 1];
      var kept := Kept(join, table, init, exclude);
      KeptInOrder(join, table, init, exclude);
      var user := Lookup(join, table, names[|names| - 1]);
      if user.Some? && Admitted(user.value, exclude) {
        var hit := Hit(names[|names| - 1], user.value);
        assert Kept(join, table, names, exclude) == kept + [hit];
        EmbedsAppend(kept, hit, names);
      } else {
        assert Kept(join, table, names, exclude) == kept;
      }
    }
  }

  /** A hit for the last key extends an embedding of the hits for the keys before it. */
  lemma EmbedsAppend(hits: seq<Hit>, hit: Hit, names: seq<string>)
    requires names != [] && hit.key == names[|names| - 1]
    requires Embeds(KeysOf(hits), names[..|names| - 1])
    ensures Embeds(KeysOf(hits + [hit]), names)
  {
    var keys := KeysOf(hits + [hit]);
    assert keys[..|keys| - 1] == KeysOf(hits) && keys[|keys| - 1] == names[|names| - 1];
  }

  /** The join keeps the graph's ranking: when the keys come ordered by shared
      characteristics with `user`, so do the hits. */
  lemma {:induction false} KeptRanked(join: Join, g: Store, user: string, table: seq<User>, names: seq<string>, exclude: Option<int>)
    requires RankedByShared(g, user, names)
    ensures RankedByShared(g, user, KeysOf(Kept(join, table, names, exclude)))
    decreases |names|
  {
    if names != [] {
      var n := |names| - 1;
      var init := names[..n];
      var kept := Kept(join, table, init, exclude);
      assert RankedByShared(g, user, init);
      KeptRanked(join, g, user, table, init, exclude);
      var found := Lookup(join, table, names[n]);
      if found.Some? && Admitted(found.value, exclude) {
        var hit := Hit(names[n], found.value);
        assert Kept(join, table, names, exclude) == kept + [hit];
        forall i | 0 <= i < |kept| ensures SharedCount(g, user, KeysOf(kept)[i]) >= SharedCount(g, user, names[n]) {
          assert kept[i] in kept;
          var p :| 0 <= p < n && init[p] == kept[i].key;
          assert names[p] == kept[i].key;
        }
        RankedAppend(g, user, KeysOf(kept), names[n]);
        assert KeysOf(kept + [hit]) == KeysOf(kept) + [names[n]];
      } else {
        assert Kept(join, table, names, exclude) == kept;
      }
    }
  }

  /** A key ranked no higher than every key of a ranked list can go at its end. */
  lemma RankedAppend(g: Store, user: string, keys: seq<string>, last: string)
    requires RankedByShared(g, user, keys)
    requires forall i | 0 <= i < |keys| :: SharedCount(g, user, keys[i]) >= SharedCount(g, user, last)
    ensures RankedByShared(g, user, keys + [last])
  {
    var r := keys + [last];
    forall i, j | 0 <= i < j < |r| ensures SharedCount(g, user, r[i]) >= SharedCount(g, user, r[j]) {
      assert r[i] == keys[i];
    }
  }

  /** `r` is the list built from `kept`: each entry carries the user's id and
      username and the graph characteristics stored under its `str(id)`. */
  ghost predicate Matches(r: seq<UserMatch>, kept: seq<Hit>, g: Store) {
    && |r| == |kept|
    && forall i | 0 <= i < |r| ::
         && r[i].id == kept[i].user.id && r[i].username == kept[i].user.username
         && IsCharacteristicsOf(g, UserKey(kept[i].user.id), r[i].characteristics)
  }

  /** Appending one hit's entry to the list keeps it built from the hits. */
  lemma MatchesNext(r: seq<UserMatch>, kept: seq<Hit>, g: Store, h: Hit, chars: map<string, string>)
    requires Matches(r, kept, g) && IsCharacteristicsOf(g, UserKey(h.user.id), chars)
    ensures Matches(r + [UserMatch(h.user.id, h.user.username, chars)], kept + [h], g)
  {
  }

  /** The graph after `user` has been given every pair of `chars`. */
  function WithAll(g: Store, user: string, chars: map<string, string>): (r: Store)
    ensures forall name | name in chars :: Has(user, Characteristic(name, chars[name])) in r.edges
    ensures g.users <= r.users && g.nodes <= r.nodes && g.edges <= r.edges
    ensures forall e | e in r.edges - g.edges :: e.user == user && e.target.name in chars && e.target.value == chars[e.target.name]
    ensures g.Valid() ==> r.Valid()
  {
    Store(g.users + (if chars == map[] then {} else {user}),
          g.nodes + set name | name in chars :: Characteristic(name, chars[name]),
          g.edges + set name | name in chars :: Has(user, Characteristic(name, chars[name])))
  }

  /** Writing one more pair is merging it into the graph. */
  lemma WithAllStep(g: Store, user: string, chars: map<string, string>, name: string, value: string)
    requires name !in chars
    ensures Merged(WithAll(g, user, chars), user, name, value) == WithAll(g, user, chars[name := value])
  {
    var c := Characteristic(name, value);
    var m := chars[name := value];
    var before := set n | n in chars :: Characteristic(n, chars[n]);
    var after := set n | n in m :: Characteristic(n, m[n]);
    forall x | x in after ensures x in before + {c} {
      var n :| n in m && x == Characteristic(n, m[n]);
      if n != name {
        assert x == Characteristic(n, chars[n]);
      }
    }
    forall x | x in before + {c} ensures x in after {
      if x != c {
        var n :| n in chars && x == Characteristic(n, chars[n]);
        assert n in m && x == Characteristic(n, m[n]);
      } else {
        assert name in m && x == Characteristic(name, m[name]);
      }
    }
    var edgesBefore := set n | n in chars :: Has(user, Characteristic(n, chars[n]));
    var edgesAfter := set n | n in m :: Has(user, Characteristic(n, m[n]));
    forall x | x in edgesAfter ensures x in edgesBefore + {Has(user, c)} {
      var n :| n in m && x == Has(user, Characteristic(n, m[n]));
      if n != name {
        assert x == Has(user, Characteristic(n, chars[n]));
      }
    }
    forall x | x in edgesBefore + {Has(user, c)} ensures x in edgesAfter {
      if x != Has(user, c) {
        var n :| n in chars && x == Has(user, Characteristic(n, chars[n]));
        assert n in m && x == Has(user, Characteristic(n, m[n]));
      } else {
        assert name in m && x == Has(user, Characteristic(name, m[name]));
      }
    }
    assert after == before + {c};
    assert edgesAfter == edgesBefore + {Has(user, c)};
  }

  /** For a user without characteristics, writing a map and reading the user's
      characteristics back gives that map. */
  lemma FreshUserReadsBack(g: Store, user: string, chars: map<string, string>, m: map<string, string>)
    requires forall e | e in g.edges :: e.user != user
    requires IsCharacteristicsOf(WithAll(g, user, chars), user, m)
    ensures m == chars
  {
    var r := WithAll(g, user, chars);
    forall name | name in chars ensures name in m {
      var e := Has(user, Characteristic(name, chars[name]));
      assert e in r.edges && e.user == user && e.target.name == name;
    }
    forall name | name in m ensures name in chars && m[name] == chars[name] {
      assert Has(user, Characteristic(name, m[name])) in r.edges - g.edges;
    }
  }

  /** `get_user_profile` and the rest of `ProfileService`; `create_user` is not part of this model. */
  class ProfileService {
    const users: seq<User>
    const graph: GraphService

    constructor (users: seq<User>, graph: GraphService)
      ensures this.users == users && this.graph == graph
    {
      this.users := users;
      this.graph := graph;
    }

    /** `get_user_profile`: `None` for an unknown id, otherwise the user's record
        with the characteristics stored under `str(user_id)`. */
    method GetUserProfile(userId: int) returns (p: Option<Profile>)
      ensures p.None? <==> FindById(users, userId).None?
      ensures p.Some? ==>
        var u := FindById(users, userId).value;
        && p.value.id == u.id == userId
        && p.value.username == u.username && p.value.email == u.email && p.value.createdAt == u.createdAt
        && IsCharacteristicsOf(graph.store, UserKey(userId), p.value.characteristics)
    {
      var user := FindById(users, userId);
      if user.None? {
        return None;
      }
      var characteristics := graph.GetUserCharacteristics(UserKey(userId));
      p := Some(Profile(user.value.id, user.value.username, user.value.email, characteristics, user.value.createdAt));
    }

    /** `update_user_characteristics`: one `add_user_characteristic` per item,
        under `str(user_id)`. The order of the items does not matter. */
    method UpdateUserCharacteristics(userId: int, characteristics: map<string, string>)
      requires graph.Valid()
      modifies graph
      ensures graph.Valid()
      ensures graph.store == WithAll(old(graph.store), UserKey(userId), characteristics)
    {
      ghost var g0 := graph.store;
      var key := UserKey(userId);
      var pending := characteristics.Keys;
      while pending != {}
        invariant pending <= characteristics.Keys
        invariant graph.Valid()
        invariant graph.store == WithAll(g0, key, map name | name in characteristics && name !in pending :: characteristics[name])
        decreases pending
      {
        var name :| name in pending;
        ghost var done := map n | n in characteristics && n !in pending :: characteristics[n];
        WithAllStep(g0, key, done, name, characteristics[name]);
        graph.AddUserCharacteristic(key, name, characteristics[name]);
        pending := pending - {name};
        assert done[name := characteristics[name]] == map n | n in characteristics && n !in pending :: characteristics[n];
      }
      assert characteristics == map name | name in characteristics && name !in pending :: characteristics[name];
    }

    /** The join loop shared by `search_users` and `get_user_suggestions`, as
        written: each graph key looked up as a username, each user's
        characteristics read under its `str(id)`. */
    method Resolve(names: seq<string>, exclude: Option<int>) returns (found: seq<UserMatch>)
      ensures Matches(found, Kept(ByUsername, users, names, exclude), graph.store)
    {
      found := [];
      var i := 0;
      assert names[..0] == [];
      while i < |names|
        invariant 0 <= i <= |names|
        invariant Matches(found, Kept(ByUsername, users, names[..i], exclude), graph.store)
      {
        KeptNext(ByUsername, users, names, i, exclude);
        var user := FindByUsername(users, names[i]);
        if user.Some? && Admitted(user.value, exclude) {
          var characteristics := graph.GetUserCharacteristics(UserKey(user.value.id));
          MatchesNext(found, Kept(ByUsername, users, names[..i], exclude), graph.store, Hit(names[i], user.value), characteristics);
          found := found + [UserMatch(user.value.id, user.value.username, characteristics)];
        }
        assert Matches(found, Kept(ByUsername, users, names[..i + 1], exclude), graph.store);
        i := i + 1;
      }
      assert names[..|names|] == names;
    }

    /** `search_users`: the graph's matches for `criteria`, joined with the
        table; empty criteria make the graph query fail. */
    method SearchUsers(criteria: map<string, string>, exclude: Option<int> := None)
      returns (r: Result<seq<UserMatch>, QueryError>, ghost names: seq<string>)
      ensures r.Failure? <==> |criteria| == 0
      ensures r.Success? ==> NoDuplicates(names)
      ensures r.Success? ==> forall name :: name in names <==> name in graph.store.users && HasAll(graph.store, name, criteria)
      ensures r.Success? ==> Matches(r.value, Kept(ByUsername, users, names, exclude), graph.store)
      ensures r.Success? && exclude.Some? && exclude.value != 0 ==> forall m | m in r.value :: m.id != exclude.value
    {
      var matching := graph.FindUsersByCharacteristics(criteria);
      if matching.Failure? {
        return Failure(matching.error), [];
      }
      var matched := matching.value;
      names := matched;
      var found := Resolve(matched, exclude);
      r := Success(found);
      if exclude.Some? && exclude.value != 0 {
        forall m | m in found ensures m.id != exclude.value {
          var i :| 0 <= i < |found| && found[i] == m;
          assert Kept(ByUsername, users, names, exclude)[i] in Kept(ByUsername, users, names, exclude);
        }
      }
    }

    /** `get_user_suggestions`: `[]` for an unknown id, otherwise the graph's
        ranking of the users most similar to `str(user_id)`, joined with the
        table by username. Each entry is the user whose username is a key of
        the ranking, and the entries keep the ranking's order. */
    method GetUserSuggestions(userId: int, limit: nat := DefaultSuggestionLimit) returns (r: seq<UserMatch>, ghost names: seq<string>)
      ensures FindById(users, userId).None? ==> r == []
      ensures FindById(users, userId).Some? ==>
        IsSimilarityRanking(graph.store, UserKey(userId), limit, names) && Matches(r, Kept(ByUsername, users, names, None), graph.store)
      ensures |r| <= limit
      ensures forall m | m in r :: m.username in names
      ensures forall i, j | 0 <= i < j < |r| ::
        SharedCount(graph.store, UserKey(userId), r[i].username) >= SharedCount(graph.store, UserKey(userId), r[j].username)
    {
      var user := FindById(users, userId);
      if user.None? {
        return [], [];
      }
      var similar := graph.FindSimilar(UserKey(userId), limit);
      names := similar;
      r := Resolve(similar, None);
      ghost var kept := Kept(ByUsername, users, names, None);
      KeptRanked(ByUsername, graph.store, UserKey(userId), users, names, None);
      KeptFound(ByUsername, users, names, None);
      forall i | 0 <= i < |r| ensures r[i].username == KeysOf(kept)[i] && r[i].username in names {
        assert kept[i] in kept;
      }
    }
  }

  /** The join as written loses users: the graph names user 1 by "1", and no
      user is called "1", so the user the graph found is dropped; resolving the
      key as `str(id)` finds it. */
  lemma UsernameJoinDropsUser()
    ensures var alice := User(1, "alice", "alice@example.com", 0);
            && Kept(ByUsername, [alice], [UserKey(1)], None) == []
            && Kept(ByGraphKey, [alice], [UserKey(1)], None) == [Hit(UserKey(1), alice)]
  {
    var alice := User(1, "alice", "alice@example.com", 0);
    assert UserKey(1) == "1";
    assert [UserKey(1)][..0] == [];
    assert FindByUsername([alice], "1") == None;
    assert FindByKey([alice], "1") == Some(alice);
  }

  /** The join as written can suggest the requester: user 1 is called "2",
      and the graph's ranking for "1" names user 2 by "2", so the username
      lookup yields user 1 itself where user 2 was meant. */
  lemma UsernameJoinSuggestsRequester()
    ensures var requester := User(1, "2", "a@example.com", 0);
            var bob := User(2, "bob", "b@example.com", 0);
            && UserKey(1) !in [UserKey(2)]
            && Kept(ByUsername, [requester, bob], [UserKey(2)], None) == [Hit(UserKey(2), requester)]
            && Kept(ByGraphKey, [requester, bob], [UserKey(2)], None) == [Hit(UserKey(2), bob)]
  {
    var requester := User(1, "2", "a@example.com", 0);
    var bob := User(2, "bob", "b@example.com", 0);
    assert UserKey(1) == "1" && UserKey(2) == "2";
    assert [UserKey(2)][..0] == [];
    assert FindByUsername([requester, bob], "2") == Some(requester);
    assert [requester, bob][1..] == [bob];
    assert FindByKey([requester, bob], "2") == Some(bob);
  }

  /** Resolving keys as `str(id)` loses nobody: a user of the table, first
      with its id, whom the graph named and who is not excluded, is kept. */
  lemma GraphKeyJoinComplete(table: seq<User>, names: seq<string>, exclude: Option<int>, u: User)
    requires FindById(table, u.id) == Some(u)
    requires UserKey(u.id) in names && Admitted(u, exclude)
    ensures Hit(UserKey(u.id), u) in Kept(ByGraphKey, table, names, exclude)
  {
    FindByKeyOfId(table, u.id);
    KeptComplete(ByGraphKey, table, names, exclude, UserKey(u.id));
  }

  /** Resolving keys as `str(id)`, the suggestions for a user never include
      that user: the similarity ranking for `str(user_id)` leaves that key
      out, and a key resolves only to the user whose `str(id)` it is. */
  lemma GraphKeyJoinExcludesRequester(g: Store, table: seq<User>, id: int, limit: nat, names: seq<string>)
    requires IsSimilarityRanking(g, UserKey(id), limit, names)
    ensures forall h | h in Kept(ByGraphKey, table, names, None) :: h.user.id != id
  {
    assert UserKey(id) !in names;
    KeptFound(ByGraphKey, table, names, None);
  }
}
