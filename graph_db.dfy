/** The characteristic graph (app/services/graph_db.py): User nodes keyed by
    username, Characteristic nodes keyed by their exact (name, value) pair, and
    HAS relationships from users to characteristics. The Cypher queries are
    modelled by what they mean over this graph, not by their text. */
module GraphDb {
  import opened Wrappers

  /** A Characteristic node; the pair is stored exactly as given, with no normalisation. */
  datatype Characteristic = Characteristic(name: string, value: string)

  /** A `(u:User)-[:HAS]->(c:Characteristic)` relationship, by the user's key. */
  datatype Edge = Has(user: string, target: Characteristic)

  /** The graph. Sets make User keys and (name, value) pairs unique, which is what
      the two uniqueness constraints of the database promise, and make HAS edges
      plain presence without multiplicity. */
  datatype Store = Store(users: set<string>, nodes: set<Characteristic>, edges: set<Edge>) {
    /** Every relationship joins two nodes that exist. */
    ghost predicate Valid() {
      forall e | e in edges :: e.user in users && e.target in nodes
    }
  }

  /** The query that `_find_users` builds when the criteria are empty
      (`MATCH (u:User) WHERE  RETURN ...`) is not valid Cypher: the driver raises. */
  datatype QueryError = MalformedQuery

  /** The graph after the three MERGEs of `_create_user_characteristic`. */
  function Merged(g: Store, user: string, name: string, value: string): (r: Store)
    ensures user in r.users && Characteristic(name, value) in r.nodes
    ensures Has(user, Characteristic(name, value)) in r.edges
    ensures g.users <= r.users && g.nodes <= r.nodes && g.edges <= r.edges
    ensures r.users - g.users <= {user}
    ensures r.nodes - g.nodes <= {Characteristic(name, value)}
    ensures r.edges - g.edges <= {Has(user, Characteristic(name, value))}
    ensures g.Valid() ==> r.Valid()
  {
    var c := Characteristic(name, value);
    Store(g.users + {user}, g.nodes + {c}, g.edges + {Has(user, c)})
  }

  /** Writing the same characteristic twice leaves the graph as writing it once:
      MERGE creates no duplicate user, characteristic or edge. */
  lemma MergedIdempotent(g: Store, user: string, name: string, value: string)
    ensures Merged(Merged(g, user, name, value), user, name, value) == Merged(g, user, name, value)
  {
  }

  /** The order in which characteristics are written does not matter. */
  lemma MergedCommute(g: Store, u1: string, n1: string, v1: string, u2: string, n2: string, v2: string)
    ensures Merged(Merged(g, u1, n1, v1), u2, n2, v2) == Merged(Merged(g, u2, n2, v2), u1, n1, v1)
  {
  }

  /** The store does not normalise: two pairs that differ at all, even only in
      case or surrounding blanks, become two distinct Characteristic nodes. */
  lemma {:induction false} NoNormalisation(g: Store, user: string, n1: string, v1: string, n2: string, v2: string)
    requires g.Valid() && (n1, v1) != (n2, v2)
    requires Characteristic(n1, v1) !in g.nodes && Characteristic(n2, v2) !in g.nodes
    ensures var r := Merged(Merged(g, user, n1, v1), user, n2, v2);
            |r.nodes| == |g.nodes| + 2 && |r.edges - g.edges| == 2
  {
    var c1, c2 := Characteristic(n1, v1), Characteristic(n2, v2);
    var r := Merged(Merged(g, user, n1, v1), user, n2, v2);
    assert r.nodes == g.nodes + {c1} + {c2};
    assert |g.nodes + {c1}| == |g.nodes| + 1;
    assert c2 !in g.nodes + {c1};
    assert Has(user, c1) !in g.edges && Has(user, c2) !in g.edges;
    assert r.edges - g.edges == {Has(user, c1), Has(user, c2)};
  }

  /** `u` has a HAS edge to every (name, value) pair of `criteria`. */
  predicate HasAll(g: Store, u: string, criteria: map<string, string>) {
    forall name | name in criteria :: Has(u, Characteristic(name, criteria[name])) in g.edges
  }

  /** `_find_users`: one pattern condition per criteria item, joined by AND, over
      all User nodes. Neo4j returns the matches in no defined order. */
  method FindUsers(tx: Store, criteria: map<string, string>) returns (r: Result<seq<string>, QueryError>)
    ensures r.Failure? <==> |criteria| == 0
    ensures r.Success? ==> forall u :: u in r.value <==> u in tx.users && HasAll(tx, u, criteria)
    ensures r.Success? ==> NoDuplicates(r.value)
  {
    var conditions: seq<Characteristic> := [];
    var items := criteria.Keys;
    while items != {}
      invariant items <= criteria.Keys
      invariant forall c :: c in conditions <==> c.name in criteria.Keys - items && c.value == criteria[c.name]
      decreases items
    {
      var name :| name in items;
      conditions := conditions + [Characteristic(name, criteria[name])];
      items := items - {name};
    }
    if |conditions| == 0 {
      assert forall name | name in criteria :: Characteristic(name, criteria[name]) in conditions;
      assert criteria.Keys == {};
      return Failure(MalformedQuery);
    }
    var matched: seq<string> := [];
    var pending := tx.users;
    while pending != {}
      invariant pending <= tx.users
      invariant forall u :: u in matched <==> u in tx.users - pending && HasAll(tx, u, criteria)
      invariant NoDuplicates(matched)
      decreases pending
    {
      var u :| u in pending;
      if forall c | c in conditions :: Has(u, c) in tx.edges {
        NoDuplicatesAppend(matched, u);
        matched := matched + [u];
      } else {
        assert !HasAll(tx, u, criteria);
      }
      pending := pending - {u};
    }
    assert |criteria| != 0 by {
      assert conditions[0].name in criteria;
    }
    return Success(matched);
  }

  /** `m` is what `_get_characteristics` can return for `user`: its keys are exactly
      the names of the characteristics `user` has, and each key maps to a value
      `user` has under that name. When a user has several values under one name,
      the row that comes last wins and the row order is not defined. */
  ghost predicate IsCharacteristicsOf(g: Store, user: string, m: map<string, string>) {
    && (forall name :: name in m <==> exists e | e in g.edges :: e.user == user && e.target.name == name)
    && (forall name | name in m :: Has(user, Characteristic(name, m[name])) in g.edges)
  }

  /** `_get_characteristics`: a dict comprehension over the user's HAS rows. */
  method GetCharacteristics(tx: Store, user: string) returns (m: map<string, string>)
    ensures IsCharacteristicsOf(tx, user, m)
  {
    var rows := set e | e in tx.edges && e.user == user;
    m := map[];
    ghost var done: set<Edge> := {};
    while rows != {}
      invariant rows <= tx.edges && done <= tx.edges
      invariant forall e | e in tx.edges && e.user == user :: e in rows || e in done
      invariant forall e | e in rows || e in done :: e.user == user
      invariant forall name :: name in m <==> exists e | e in done :: e.target.name == name
      invariant forall name | name in m :: Has(user, Characteristic(name, m[name])) in tx.edges
      decreases rows
    {
      var row :| row in rows;
      m := m[row.target.name := row.target.value];
      rows := rows - {row};
      done := done + {row};
    }
  }

  /** A user that is not in the graph has no characteristics. */
  lemma UnknownUserHasNone(g: Store, user: string, m: map<string, string>)
    requires g.Valid() && user !in g.users
    requires IsCharacteristicsOf(g, user, m)
    ensures m == map[]
  {
    assert forall e | e in g.edges :: e.user != user;
    assert m.Keys == {};
  }

  /** After writing (name, value) for `user`, reading the user's characteristics
      yields a map with key `name`. */
  lemma WrittenNameIsRead(g: Store, user: string, name: string, value: string, m: map<string, string>)
    requires IsCharacteristicsOf(Merged(g, user, name, value), user, m)
    ensures name in m
  {
    var e := Has(user, Characteristic(name, value));
    assert e in Merged(g, user, name, value).edges && e.user == user && e.target.name == name;
  }

  /** The characteristics `a` and `b` both have: the `c` of the pattern
      `(u1)-[:HAS]->(c)<-[:HAS]-(u2)`, whose count the similarity query ranks by. */
  function Shared(g: Store, a: string, b: string): (r: set<Characteristic>)
    ensures forall c :: c in r <==> Has(a, c) in g.edges && Has(b, c) in g.edges
  {
    set e | e in g.edges && e.user == b && Has(a, e.target) in g.edges :: e.target
  }

  /** `count(c)` for the pair: how many characteristics `a` and `b` share. */
  function SharedCount(g: Store, a: string, b: string): nat {
    |Shared(g, a, b)|
  }

  /** The users other than `user` that `_find_similar_users` can return. */
  function SimilarCandidates(g: Store, user: string): (r: set<string>)
    ensures forall x :: x in r <==> x != user && Shared(g, user, x) != {}
  {
    var r := set e | e in g.edges && e.user != user && Has(user, e.target) in g.edges :: e.user;
    assert forall x | x != user && Shared(g, user, x) != {} :: x in r by {
      forall x | x != user && Shared(g, user, x) != {} ensures x in r {
        var c :| c in Shared(g, user, x);
        assert Has(x, c) in g.edges;
      }
    }
    r
  }

  /** Earlier entries share at least as many characteristics with `user` as later ones. */
  ghost predicate RankedByShared(g: Store, user: string, r: seq<string>) {
    forall i, j | 0 <= i < j < |r| :: SharedCount(g, user, r[i]) >= SharedCount(g, user, r[j])
  }

  /** What `_find_similar_users(user, limit)` returns: other users sharing at least
      one characteristic, by descending shared count, cut to `limit`, and a prefix
      of that order, so no user left out shares more than one returned. */
  ghost predicate IsSimilarityRanking(g: Store, user: string, limit: nat, r: seq<string>) {
    var candidates := SimilarCandidates(g, user);
    && (forall x | x in r :: x in candidates)
    && NoDuplicates(r)
    && |r| == (if limit < |candidates| then limit else |candidates|)
    && RankedByShared(g, user, r)
    && (forall x, y | x in candidates && x !in r && y in r :: SharedCount(g, user, x) <= SharedCount(g, user, y))
  }

  /** The `ORDER BY commonCharacteristics DESC` step: a user of `pool` with the
      largest shared count; ties are broken in no defined way. */
  method MostShared(tx: Store, user: string, pool: set<string>) returns (best: string)
    requires pool != {}
    ensures best in pool
    ensures forall x | x in pool :: SharedCount(tx, user, x) <= SharedCount(tx, user, best)
  {
    best :| best in pool;
    var bestCount := SharedCount(tx, user, best);
    var rest := pool - {best};
    while rest != {}
      invariant rest <= pool && best in pool
      invariant bestCount == SharedCount(tx, user, best)
      invariant forall x | x in pool && x !in rest :: SharedCount(tx, user, x) <= bestCount
      decreases rest
    {
      var x :| x in rest;
      var count := SharedCount(tx, user, x);
      if count > bestCount {
        best, bestCount := x, count;
      }
      rest := rest - {x};
    }
  }

  /** The state of the selection in `FindSimilarUsers`: `r` is ranked so far and
      `pool` holds the candidates not taken yet, none sharing more than any taken. */
  ghost predicate Selection(g: Store, user: string, candidates: set<string>, pool: set<string>, r: seq<string>) {
    && pool <= candidates
    && (forall x :: x in candidates <==> x in pool || x in r)
    && (forall x | x in r :: x !in pool)
    && |pool| + |r| == |candidates|
    && NoDuplicates(r)
    && RankedByShared(g, user, r)
    && (forall x, y | x in pool && y in r :: SharedCount(g, user, x) <= SharedCount(g, user, y))
  }

  /** Taking a user of `pool` with the largest shared count keeps the selection ranked. */
  lemma SelectionStep(g: Store, user: string, candidates: set<string>, pool: set<string>, r: seq<string>, best: string)
    requires Selection(g, user, candidates, pool, r)
    requires best in pool && forall x | x in pool :: SharedCount(g, user, x) <= SharedCount(g, user, best)
    ensures Selection(g, user, candidates, pool - {best}, r + [best])
  {
    var r' := r + [best];
    assert forall x :: x in r' <==> x in r || x == best;
    forall i, j | 0 <= i < j < |r'|
      ensures SharedCount(g, user, r'[i]) >= SharedCount(g, user, r'[j])
    {
      if j < |r| {
        assert r'[i] == r[i] && r'[j] == r[j];
      } else {
        assert r'[i] == r[i] && r[i] in r && r'[j] == best;
      }
    }
  }

  /** `_find_similar_users`. */
  method FindSimilarUsers(tx: Store, user: string, limit: nat) returns (r: seq<string>)
    ensures user !in r
    ensures IsSimilarityRanking(tx, user, limit, r)
  {
    var candidates := SimilarCandidates(tx, user);
    var pool := candidates;
    r := [];
    while |r| < limit && pool != {}
      invariant Selection(tx, user, candidates, pool, r)
      invariant |r| <= limit
      decreases pool
    {
      var best := MostShared(tx, user, pool);
      SelectionStep(tx, user, candidates, pool, r, best);
      r := r + [best];
      pool := pool - {best};
    }
  }

  /** `GraphService`: the driver replaced by the graph it is connected to. Each
      public method runs one of the transaction functions above in its own session. */
  class GraphService {
    var store: Store

    /** The connected graph is a graph: every relationship joins existing nodes. */
    ghost predicate Valid()
      reads this
    {
      store.Valid()
    }

    constructor (initial: Store)
      requires initial.Valid()
      ensures Valid() && store == initial
    {
      store := initial;
    }

    /** `add_user_characteristic`: a write transaction running `_create_user_characteristic`. */
    method AddUserCharacteristic(username: string, characteristic: string, value: string)
      requires Valid()
      modifies this
      ensures Valid()
      ensures store == Merged(old(store), username, characteristic, value)
    {
      store := Merged(store, username, characteristic, value);
    }

    /** `find_users_by_characteristics`: a read transaction running `_find_users`. */
    method FindUsersByCharacteristics(criteria: map<string, string>) returns (r: Result<seq<string>, QueryError>)
      ensures r.Failure? <==> |criteria| == 0
      ensures r.Success? ==> forall u :: u in r.value <==> u in store.users && HasAll(store, u, criteria)
      ensures r.Success? ==> NoDuplicates(r.value)
    {
      r := FindUsers(store, criteria);
    }

    /** `get_user_characteristics`: a read transaction running `_get_characteristics`. */
    method GetUserCharacteristics(username: string) returns (m: map<string, string>)
      ensures IsCharacteristicsOf(store, username, m)
    {
      m := GetCharacteristics(store, username);
    }

    /** `find_similar_users`: a read transaction running `_find_similar_users`. */
    method FindSimilar(username: string, limit: nat := 5) returns (r: seq<string>)
      ensures username !in r && |r| <= limit
      ensures IsSimilarityRanking(store, username, limit, r)
    {
      r := FindSimilarUsers(store, username, limit);
    }
  }
}
