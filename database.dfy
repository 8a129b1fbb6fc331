/** The relational records (app/models/database.py) and the lookups the
    services run against the `users` table, plus Python's `str(int)`, which
    turns a user id into the key of that user's node in the graph. */
module Database {
  import opened Wrappers

  /** A row of the `users` table; `createdAt` is the creation time as an integer. */
  datatype User = User(id: int, username: string, email: string, createdAt: int)

  /** A row of the `messages` table; `read` defaults to false on insert. */
  datatype Message = Message(id: int, senderId: int, recipientId: int, content: string, timestamp: int, read: bool)

  /** `query(User).filter(User.id == id).first()`: the first row with that id. */
  function FindById(table: seq<User>, id: int): (r: Option<User>)
    ensures r.None? <==> forall u | u in table :: u.id != id
    ensures r.Some? ==> exists k | 0 <= k < |table| :: table[k] == r.value && r.value.id == id
                                                  && forall j | 0 <= j < k :: table[j].id != id
  {
    if table == [] then None
    else if table[0].id == id then Some(table[0])
    else
      var r := FindById(table[1..], id);
      if r.Some? then
        var k :| 0 <= k < |table[1..]| && table[1..][k] == r.value && r.value.id == id
                 && forall j | 0 <= j < k :: table[1..][j].id != id;
        assert table[k + 1] == r.value && forall j | 0 <= j < k + 1 :: table[j].id != id;
        r
      else r
  }

  /** `query(User).filter(User.username == name).first()`: the first row with that username. */
  function FindByUsername(table: seq<User>, name: string): (r: Option<User>)
    ensures r.None? <==> forall u | u in table :: u.username != name
    ensures r.Some? ==> r.value in table && r.value.username == name
    ensures r.Some? ==> exists k | 0 <= k < |table| :: table[k] == r.value && r.value.username == name
                                                  && forall j | 0 <= j < k :: table[j].username != name
  {
    if table == [] then None
    else if table[0].username == name then Some(table[0])
    else
      var r := FindByUsername(table[1..], name);
      if r.Some? then
        var k :| 0 <= k < |table[1..]| && table[1..][k] == r.value && r.value.username == name
                 && forall j | 0 <= j < k :: table[1..][j].username != name;
        assert table[k + 1] == r.value && forall j | 0 <= j < k + 1 :: table[j].username != name;
        r
      else r
  }

  /** The decimal digit for `d`. */
  function DigitChar(d: nat): char
    requires d < 10
  {
    (d + '0' as int) as char
  }

  /** The numeric value of a decimal digit character (0 for any other character). */
  function DigitValue(c: char): nat {
    if '0' <= c <= '9' then c as int - '0' as int else 0
  }

  /** The decimal numeral of `n`, most significant digit first, no leading zeros. */
  function Digits(n: nat): (s: string)
    ensures |s| > 0 && forall i | 0 <= i < |s| :: '0' <= s[i] <= '9'
    ensures s[0] == '0' ==> n == 0 && s == "0"
    decreases n
  {
    if n < 10 then [DigitChar(n)] else Digits(n / 10) + [DigitChar(n % 10)]
  }

  /** The value of a string of decimal digits. */
  function ValueOf(s: string): nat
    decreases |s|
  {
    if s == [] then 0 else ValueOf(s[..|s| - 1]) * 10 + DigitValue(s[|s| - 1])
  }

  lemma {:induction false} DigitsRoundTrip(n: nat)
    ensures ValueOf(Digits(n)) == n
    decreases n
  {
    if n >= 10 {
      DigitsRoundTrip(n / 10);
      var s := Digits(n / 10) + [DigitChar(n % 10)];
      assert s[..|s| - 1] == Digits(n / 10);
    }
  }

  /** Python's `str(user_id)`: the key under which a user's node is stored in the graph. */
  function UserKey(id: int): (r: string)
    ensures r != [] && (r[0] == '-' <==> id < 0)
    ensures forall i | (if id < 0 then 1 else 0) <= i < |r| :: '0' <= r[i] <= '9'
    ensures id < 0 ==> |r| >= 2 && r[1] != '0'
    ensures id >= 0 && r[0] == '0' ==> id == 0 && r == "0"
    ensures id >= 0 ==> ValueOf(r) == id
    ensures id < 0 ==> ValueOf(r[1..]) == -id
    decreases if id < 0 then 1 else 0
  {
    if id < 0 then
      var k := UserKey(-id);
      assert ("-" + k)[1..] == k;
      "-" + k
    else
      DigitsRoundTrip(id);
      Digits(id)
  }

  /** Distinct user ids give distinct graph keys, so two users never share a graph node. */
  lemma UserKeyInjective(a: int, b: int)
    ensures UserKey(a) == UserKey(b) <==> a == b
  {
    if a != b {
      if a < 0 && b < 0 {
        NegativeKeys(a, b);
      } else if a >= 0 && b >= 0 {
        DigitsInjective(a, b);
      } else if a < 0 {
        SignedKeyStart(a, b);
      } else {
        SignedKeyStart(b, a);
      }
    }
  }

  lemma DigitsInjective(m: nat, n: nat)
    requires m != n
    ensures Digits(m) != Digits(n)
  {
    DigitsRoundTrip(m);
    DigitsRoundTrip(n);
  }

  lemma NegativeKeys(a: int, b: int)
    requires a < 0 && b < 0 && a != b
    ensures UserKey(a) != UserKey(b)
  {
    var da, db := Digits(-a), Digits(-b);
    DigitsInjective(-a, -b);
    assert ("-" + da)[1..] == da;
    assert ("-" + db)[1..] == db;
  }

  /** A negative id's key starts with '-', a non-negative one's with a digit. */
  lemma SignedKeyStart(a: int, b: int)
    requires a < 0 <= b
    ensures UserKey(a) != UserKey(b)
  {
    assert UserKey(a)[0] == '-';
    assert '0' <= Digits(b)[0] <= '9';
  }
}
