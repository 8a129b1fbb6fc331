/** The characteristic extraction of app/services/claude_service.py: the
    line-based `key: value` parser applied to the language model's reply, and
    the fallback to an empty mapping when the model call fails. The model call
    itself is replaced by its reply text, or `None` when it raised. */
module Extraction {
  import opened Wrappers

  /** The characters Python's `str.strip()` removes, restricted to ASCII:
      space, tab, line feed, vertical tab, form feed, carriage return and the
      separators 0x1C to 0x1F. */
  predicate IsSpace(c: char) {
    ('\t' <= c <= '\r') || ('\U{001C}' <= c <= ' ')
  }

  /** No leading or trailing whitespace. */
  predicate IsTrimmed(s: string) {
    s == [] || (!IsSpace(s[0]) && !IsSpace(s[|s| - 1]))
  }

  /** No ASCII upper-case letter. */
  predicate IsLowerCase(s: string) {
    forall i | 0 <= i < |s| :: !('A' <= s[i] <= 'Z')
  }

  /** How many whitespace characters `s` starts with. */
  function LeadingSpaces(s: string): (n: nat)
    ensures n <= |s| && (forall k | 0 <= k < n :: IsSpace(s[k])) && (n < |s| ==> !IsSpace(s[n]))
    decreases |s|
  {
    if s != [] && IsSpace(s[0]) then
      var n := LeadingSpaces(s[1..]);
      assert forall k | 1 <= k < n + 1 :: s[k] == s[1..][k - 1];
      n + 1
    else 0
  }

  /** How many whitespace characters `s` ends with. */
  function TrailingSpaces(s: string): (n: nat)
    ensures n <= |s| && (forall k | |s| - n <= k < |s| :: IsSpace(s[k])) && (n < |s| ==> !IsSpace(s[|s| - n - 1]))
    decreases |s|
  {
    if s != [] && IsSpace(s[|s| - 1]) then
      var n := TrailingSpaces(s[..|s| - 1]);
      assert forall k | |s| - n - 1 <= k < |s| - 1 :: s[k] == s[..|s| - 1][k];
      n + 1
    else 0
  }

  /** `s.strip()`: the part of `s` left when its leading and trailing
      whitespace is removed. */
  function Trim(s: string): (r: string)
    ensures IsTrimmed(r)
    ensures IsTrimmed(s) ==> r == s
    ensures var i := LeadingSpaces(s);
            && i + |r| <= |s| && r == s[i..i + |r|]
            && forall k | i + |r| <= k < |s| :: IsSpace(s[k])
  {
    var i := LeadingSpaces(s);
    var rest := s[i..];
    var r := rest[..|rest| - TrailingSpaces(rest)];
    assert r == s[i..i + |r|];
    assert forall k | i + |r| <= k < |s| :: s[k] == rest[k - i];
    r
  }

  /** `c.lower()` for an ASCII letter; every other character is left alone. */
  function LowerChar(c: char): char {
    if 'A' <= c <= 'Z' then (c as int - 'A' as int + 'a' as int) as char else c
  }

  /** `s.lower()` on ASCII letters. */
  function Lower(s: string): (r: string)
    ensures |r| == |s| && IsLowerCase(r)
    ensures forall i | 0 <= i < |s| :: IsSpace(r[i]) <==> IsSpace(s[i])
    ensures forall i | 0 <= i < |s| :: !('A' <= s[i] <= 'Z') ==> r[i] == s[i]
    ensures forall i | 0 <= i < |s| && 'A' <= s[i] <= 'Z' :: r[i] as int == s[i] as int + 32
  {
    seq(|s|, i requires 0 <= i < |s| => LowerChar(s[i]))
  }

  /** The position of the first `c` in `s`, if any. */
  function IndexOf(s: string, c: char): (r: Option<nat>)
    ensures r.None? <==> c !in s
    ensures r.Some? ==> r.value < |s| && s[r.value] == c && c !in s[..r.value]
  {
    if s == [] then None
    else if s[0] == c then Some(0)
    else
      match IndexOf(s[1..], c)
      case None => None
      case Some(i) =>
        assert s[..i + 1] == [s[0]] + s[1..][..i];
        Some(i + 1)
  }

  /** The first `c` of `a + [c] + b` is the one right after `a` when `a` has none. */
  lemma {:induction false} IndexAfter(a: string, b: string, c: char)
    requires c !in a
    ensures IndexOf(a + [c] + b, c) == Some(|a|)
    decreases |a|
  {
    if a != [] {
      IndexAfter(a[1..], b, c);
      assert (a + [c] + b)[1..] == a[1..] + [c] + b;
    }
  }

  /** `s.split(sep)`: the pieces between occurrences of `sep`; always at least one. */
  function Split(s: string, sep: char): (r: seq<string>)
    ensures |r| >= 1
    ensures forall i | 0 <= i < |r| :: sep !in r[i]
    ensures forall i, c | 0 <= i < |r| && c in r[i] :: c in s
    decreases |s|
  {
    match IndexOf(s, sep)
    case None => [s]
    case Some(i) =>
      var rest := Split(s[i + 1..], sep);
      assert s == s[..i] + [sep] + s[i + 1..];
      assert forall c | c in s[i + 1..] :: c in s;
      [s[..i]] + rest
  }

  /** `sep.join(parts)`. */
  function Join(parts: seq<string>, sep: char): string
    decreases |parts|
  {
    if |parts| <= 1 then (if parts == [] then "" else parts[0])
    else parts[0] + [sep] + Join(parts[1..], sep)
  }

  /** Splitting loses nothing: joining the pieces gives back the text. */
  lemma {:induction false} SplitJoin(s: string, sep: char)
    ensures Join(Split(s, sep), sep) == s
    decreases |s|
  {
    match IndexOf(s, sep)
    case None =>
    case Some(i) =>
      var rest := Split(s[i + 1..], sep);
      assert Split(s, sep) == [s[..i]] + rest;
      SplitJoin(s[i + 1..], sep);
      JoinFront(s[..i], rest, sep);
      assert s == s[..i] + [sep] + s[i + 1..];
  }

  /** Joining a piece in front of at least one more puts a separator between them. */
  lemma JoinFront(first: string, rest: seq<string>, sep: char)
    requires |rest| >= 1
    ensures Join([first] + rest, sep) == first + [sep] + Join(rest, sep)
  {
    assert ([first] + rest)[1..] == rest;
  }

  /** What one line of the reply contributes: split on its first ':', the key
      stripped and lower-cased, the value stripped; nothing when there is no
      ':' or when either part is empty after stripping. */
  function LineEntry(line: string): (r: Option<(string, string)>)
    ensures ':' !in line ==> r.None?
    ensures r.Some? ==> r.value.0 != [] && IsTrimmed(r.value.0) && IsLowerCase(r.value.0)
    ensures r.Some? ==> r.value.1 != [] && IsTrimmed(r.value.1)
  {
    match IndexOf(line, ':')
    case None => None
    case Some(colon) =>
      var key := Lower(Trim(line[..colon]));
      var value := Trim(line[colon + 1..]);
      if key != [] && value != [] then Some((key, value)) else None
  }

  /** Every key is non-empty, trimmed and lower-case; every value is non-empty and trimmed. */
  ghost predicate WellFormed(m: map<string, string>) {
    forall k | k in m :: k != [] && IsTrimmed(k) && IsLowerCase(k) && m[k] != [] && IsTrimmed(m[k])
  }

  /** An entry as `LineEntry` produces it: key and value non-empty and trimmed, the key lower-case. */
  ghost predicate GoodEntry(e: Option<(string, string)>) {
    e.Some? ==> e.value.0 != [] && IsTrimmed(e.value.0) && IsLowerCase(e.value.0) && e.value.1 != [] && IsTrimmed(e.value.1)
  }

  /** The entry of each line, in order. */
  function Entries(lines: seq<string>): (r: seq<Option<(string, string)>>)
    ensures |r| == |lines| && forall i | 0 <= i < |lines| :: r[i] == LineEntry(lines[i]) && GoodEntry(r[i])
  {
    seq(|lines|, i requires 0 <= i < |lines| => LineEntry(lines[i]))
  }

  /** The dictionary after the entries have been stored in order, each one
      overwriting any earlier one with the same key. */
  function Collect(entries: seq<Option<(string, string)>>): (m: map<string, string>)
    ensures (forall i | 0 <= i < |entries| :: GoodEntry(entries[i])) ==> WellFormed(m)
    decreases |entries|
  {
    if entries == [] then map[]
    else
      var init := entries[..|entries| - 1];
      assert forall i | 0 <= i < |init| :: init[i] == entries[i];
      var m := Collect(init);
      Stored(m, entries[|entries| - 1])
  }

  /** `m` with `entry` stored in it, if there is one. */
  function Stored(m: map<string, string>, entry: Option<(string, string)>): map<string, string> {
    if entry.Some? then m[entry.value.0 := entry.value.1] else m
  }

  lemma CollectStep(entries: seq<Option<(string, string)>>, i: nat)
    requires i < |entries|
    ensures Collect(entries[..i + 1]) == Stored(Collect(entries[..i]), entries[i])
  {
    assert entries[..i + 1][..i] == entries[..i];
  }

  /** The dictionary `_extract_characteristics` builds from the lines of a reply. */
  function ParseLines(lines: seq<string>): (m: map<string, string>)
    ensures WellFormed(m)
  {
    Collect(Entries(lines))
  }

  /** The dictionary `_extract_characteristics` builds from a reply. */
  function ParseReply(reply: string): map<string, string> {
    ParseLines(Split(reply, '\n'))
  }

  /** `_extract_characteristics`. */
  method ExtractCharacteristics(reply: string) returns (characteristics: map<string, string>)
    ensures characteristics == ParseReply(reply)
  {
    characteristics := map[];
    var lines := Split(reply, '\n');
    ghost var entries := Entries(lines);
    var i := 0;
    while i < |lines|
      invariant 0 <= i <= |lines|
      invariant characteristics == Collect(entries[..i])
    {
      CollectStep(entries, i);
      match LineEntry(lines[i]) {
        case Some((key, value)) => characteristics := characteristics[key := value];
        case None =>
      }
      i := i + 1;
    }
    assert entries[..|lines|] == entries;
  }

  /** `entry` carries key `key`. */
  predicate HasKey(entry: Option<(string, string)>, key: string) {
    entry.Some? && entry.value.0 == key
  }

  /** A key is collected exactly when some entry carries it. */
  lemma {:induction false} CollectedKeys(entries: seq<Option<(string, string)>>, key: string)
    ensures key in Collect(entries) <==> exists i | 0 <= i < |entries| :: HasKey(entries[i], key)
    decreases |entries|
  {
    if entries != [] {
      var n := |entries| - 1;
      var init := entries[..n];
      CollectedKeys(init, key);
      if key in Collect(init) {
        var i :| 0 <= i < |init| && HasKey(init[i], key);
        assert entries[i] == init[i];
      }
      if exists i | 0 <= i < n :: HasKey(entries[i], key) {
        var i :| 0 <= i < n && HasKey(entries[i], key);
        assert init[i] == entries[i];
      }
    }
  }

  /** A key is in the result exactly when some line yields an entry with that key. */
  lemma ParsedKeys(lines: seq<string>, key: string)
    ensures key in ParseLines(lines) <==> exists i | 0 <= i < |lines| :: HasKey(LineEntry(lines[i]), key)
  {
    var entries := Entries(lines);
    CollectedKeys(entries, key);
    assert forall i | 0 <= i < |lines| :: entries[i] == LineEntry(lines[i]);
  }

  /** The value stored for a key is that of the last entry carrying it. */
  lemma {:induction false} LastEntryWins(entries: seq<Option<(string, string)>>, i: nat, key: string, value: string)
    requires i < |entries| && entries[i] == Some((key, value))
    requires forall j | i < j < |entries| :: !HasKey(entries[j], key)
    ensures key in Collect(entries) && Collect(entries)[key] == value
    decreases |entries|
  {
    var init := entries[..|entries| - 1];
    if i < |entries| - 1 {
      forall j | i < j < |init| ensures init[j] == entries[j] { }
      LastEntryWins(init, i, key, value);
    }
  }

  /** When several lines yield the same key, the later one wins: the value in
      the result is that of the last line yielding the key. */
  lemma LaterLineWins(lines: seq<string>, i: nat, key: string, value: string)
    requires i < |lines| && LineEntry(lines[i]) == Some((key, value))
    requires forall j | i < j < |lines| :: !HasKey(LineEntry(lines[j]), key)
    ensures key in ParseLines(lines) && ParseLines(lines)[key] == value
  {
    LastEntryWins(Entries(lines), i, key, value);
  }

  /** A line is split on its first colon only: whatever follows, later colons
      included, is the value. */
  lemma SplitsOnFirstColon(key: string, value: string)
    requires ':' !in key
    ensures LineEntry(key + ":" + value) ==
      (if Lower(Trim(key)) != [] && Trim(value) != [] then Some((Lower(Trim(key)), Trim(value))) else None)
  {
    var line := key + ":" + value;
    assert line == key + [':'] + value;
    IndexAfter(key, value, ':');
    assert line[..|key|] == key && line[|key| + 1..] == value;
  }

  /** A reply without any colon yields no characteristics. */
  lemma NoColonNoCharacteristics(reply: string)
    requires ':' !in reply
    ensures ParseReply(reply) == map[]
  {
    var lines := Split(reply, '\n');
    forall i | 0 <= i < |lines| ensures LineEntry(lines[i]).None? {
    }
    forall key | key in ParseLines(lines) ensures false {
      ParsedKeys(lines, key);
    }
    assert ParseLines(lines).Keys == {};
  }

  /** Splitting at a first separator: the text before it is the first piece. */
  lemma SplitAtFirst(a: string, b: string, sep: char)
    requires sep !in a
    ensures Split(a + [sep] + b, sep) == [a] + Split(b, sep)
  {
    var s := a + [sep] + b;
    IndexAfter(a, b, sep);
    assert s[..|a|] == a && s[|a| + 1..] == b;
  }

  /** A line `key: value` whose key is already lower-case and trimmed yields exactly that pair. */
  lemma PlainLine(key: string, value: string)
    requires ':' !in key && key != [] && IsTrimmed(key) && IsLowerCase(key)
    requires value != [] && IsTrimmed(value)
    ensures LineEntry(key + ": " + value) == Some((key, value))
  {
    var padded := " " + value;
    assert Lower(Trim(key)) == key && Trim(padded) == value by {
      TrimAfterSpace(value);
      LowerOfLowerCase(key);
    }
    assert key + ": " + value == key + ":" + padded;
    SplitsOnFirstColon(key, padded);
  }

  /** Stripping a trimmed text behind one space gives the text. */
  lemma TrimAfterSpace(s: string)
    requires IsTrimmed(s)
    ensures Trim(" " + s) == s
  {
    var t := " " + s;
    assert t != [] && IsSpace(t[0]) && t[1..] == s;
    assert LeadingSpaces(t) == LeadingSpaces(s) + 1;
    assert t[LeadingSpaces(t)..] == s;
  }

  /** Lower-casing a lower-case text changes nothing. */
  lemma LowerOfLowerCase(s: string)
    requires IsLowerCase(s)
    ensures Lower(s) == s
  {
  }

  /** Two lines are read first to last. */
  lemma TwoLines(a: string, b: string)
    ensures ParseLines([a, b]) == Stored(Stored(map[], LineEntry(a)), LineEntry(b))
  {
    var entries := Entries([a, b]);
    assert entries[..1] == [LineEntry(a)] && entries[..1][..0] == [];
    assert Collect(entries[..1]) == Stored(map[], LineEntry(a));
    assert entries[..2] == entries;
  }

  /** A reply of two `key: value` lines, keys lower-case and trimmed, values
      trimmed, yields exactly those two pairs; when the keys coincide the second
      value is kept. */
  lemma TwoLineReply(k1: string, v1: string, k2: string, v2: string)
    requires ':' !in k1 && ':' !in k2
    requires '\n' !in k1 && '\n' !in v1 && '\n' !in k2 && '\n' !in v2
    requires k1 != [] && IsTrimmed(k1) && IsLowerCase(k1) && v1 != [] && IsTrimmed(v1)
    requires k2 != [] && IsTrimmed(k2) && IsLowerCase(k2) && v2 != [] && IsTrimmed(v2)
    ensures ParseReply(k1 + ": " + v1 + "\n" + k2 + ": " + v2) == map[k1 := v1, k2 := v2]
  {
    var first, second := k1 + ": " + v1, k2 + ": " + v2;
    var reply := k1 + ": " + v1 + "\n" + k2 + ": " + v2;
    assert Split(reply, '\n') == [first, second] by {
      assert reply == first + ['\n'] + second;
      assert '\n' !in first && '\n' !in second;
      SplitAtFirst(first, second, '\n');
    }
    PlainLine(k1, v1);
    PlainLine(k2, v2);
    TwoLines(first, second);
    assert ParseReply(reply) == map[][k1 := v1][k2 := v2];
  }

  /** The reply shown to the user when the model call fails. */
  const Apology := "I apologize, but I'm having trouble processing your message."

  /** `process_message`: the model's reply (`None` when the call raised) and the
      characteristics parsed from it; on failure the apology and no characteristics. */
  method ProcessMessage(reply: Option<string>) returns (response: string, characteristics: map<string, string>)
    ensures reply.None? ==> response == Apology && characteristics == map[]
    ensures reply.Some? ==> response == reply.value && characteristics == ParseReply(reply.value)
    ensures WellFormed(characteristics)
  {
    if reply.None? {
      return Apology, map[];
    }
    characteristics := ExtractCharacteristics(reply.value);
    response := reply.value;
  }

  /** `find_matching_users`: search criteria from the model's reply; a failed call
      gives the empty mapping instead of an error. */
  method FindMatchingUsers(reply: Option<string>) returns (criteria: map<string, string>)
    ensures reply.None? ==> criteria == map[]
    ensures reply.Some? ==> criteria == ParseReply(reply.value)
    ensures WellFormed(criteria)
  {
    if reply.None? {
      return map[];
    }
    criteria := ExtractCharacteristics(reply.value);
  }
}
