/** The env file written for a container run: which variables are accepted, what is printed, and that it reads back. */
module EnvFile {
  import opened Wrappers

  predicate IsLetter(c: char) {
    c == '_' || 'A' <= c <= 'Z' || 'a' <= c <= 'z'
  }

  predicate ValidName(key: string) {
    key != "" && forall i :: 0 <= i < |key| ==> IsLetter(key[i]) || (i > 0 && '0' <= key[i] <= '9')
  }

  /** Names letter by letter: a letter or underscore, and any further letter, underscore or digit. */
  lemma NamesGrow(key: string, c: char)
    ensures !ValidName("")
    ensures ValidName([c]) <==> c == '_' || 'A' <= c <= 'Z' || 'a' <= c <= 'z'
    ensures key != "" ==>
              (ValidName(key + [c]) <==>
               ValidName(key) && (c == '_' || 'A' <= c <= 'Z' || 'a' <= c <= 'z' || '0' <= c <= '9'))
  {
    if key != "" {
      var more := key + [c];
      assert more[|key|] == c && forall i :: 0 <= i < |key| ==> more[i] == key[i];
    }
  }

  predicate ValidValue(value: string) {
    '\0' !in value && '\r' !in value && '\n' !in value
  }

  ghost predicate Accepted(env: map<string, string>) {
    forall k :: k in env ==> ValidName(k) && ValidValue(env[k])
  }

  // ----- the order of the keys

  predicate Before(a: string, b: string) {
    if b == "" then false
    else if a == "" then true
    else a[0] < b[0] || (a[0] == b[0] && Before(a[1..], b[1..]))
  }

  /** The order is that of the first difference, and a name before its continuations. */
  lemma {:induction false} BeforeMeans(a: string, b: string, k: nat)
    requires k <= |a| && k <= |b| && a[..k] == b[..k]
    ensures k == |a| < |b| ==> Before(a, b) && !Before(b, a)
    ensures k < |a| && k < |b| && a[k] != b[k] ==> (Before(a, b) <==> a[k] < b[k])
    decreases k
  {
    if k > 0 {
      assert a[0] == a[..k][0] == b[..k][0] == b[0];
      assert a[1..][..k - 1] == a[..k][1..] == b[..k][1..] == b[1..][..k - 1];
      BeforeMeans(a[1..], b[1..], k - 1);
    }
  }

  lemma {:induction false} BeforeIsTotal(a: string, b: string)
    ensures a == b || Before(a, b) || Before(b, a)
    ensures !(Before(a, b) && Before(b, a)) && !Before(a, a)
  {
    if a != "" && b != "" {
      BeforeIsTotal(a[1..], b[1..]);
      assert a == [a[0]] + a[1..] && b == [b[0]] + b[1..];
    }
    if a != "" {
      BeforeIsTotal(a[1..], a[1..]);
    }
  }

  lemma {:induction false} BeforeIsTransitive(a: string, b: string, c: string)
    requires Before(a, b) && Before(b, c)
    ensures Before(a, c)
  {
    if a != "" && a[0] == b[0] && b[0] == c[0] {
      BeforeIsTransitive(a[1..], b[1..], c[1..]);
    }
  }

  ghost predicate Ascending(keys: seq<string>) {
    forall i, j :: 0 <= i < j < |keys| ==> Before(keys[i], keys[j])
  }

  function Members(keys: seq<string>): set<string> {
    set i | 0 <= i < |keys| :: keys[i]
  }

  lemma HeadIsMember(keys: seq<string>)
    requires keys != []
    ensures keys[0] in Members(keys)
  {
  }

  lemma Heads(keys: seq<string>, other: seq<string>)
    requires Ascending(keys) && Ascending(other) && Members(keys) == Members(other) && keys != []
    ensures other != [] && keys[0] == other[0]
  {
    assert keys[0] in Members(keys);
    assert other[0] in Members(other);
    var i :| 0 <= i < |other| && other[i] == keys[0];
    var j :| 0 <= j < |keys| && keys[j] == other[0];
    BeforeIsTotal(keys[0], other[0]);
  }

  /** A set of keys has one ascending order. */
  lemma {:induction false} AscendingIsUnique(keys: seq<string>, other: seq<string>)
    requires Ascending(keys) && Ascending(other) && Members(keys) == Members(other)
    ensures keys == other
  {
    if keys == [] {
      if other != [] {
        HeadIsMember(other);
      }
    } else {
      Heads(keys, other);
      TailIsAscending(keys);
      TailIsAscending(other);
      AscendingIsUnique(keys[1..], other[1..]);
      assert keys == [keys[0]] + keys[1..] && other == [other[0]] + other[1..];
    }
  }

  lemma TailIsAscending(keys: seq<string>)
    requires Ascending(keys) && keys != []
    ensures Ascending(keys[1..]) && Members(keys[1..]) == Members(keys) - {keys[0]}
  {
    var rest := keys[1..];
    forall k
      ensures k in Members(rest) <==> k in Members(keys) && k != keys[0]
    {
      if k in Members(rest) {
        var i :| 0 <= i < |rest| && rest[i] == k;
        assert keys[i + 1] == k;
        BeforeIsTotal(keys[0], k);
      }
      if k in Members(keys) && k != keys[0] {
        var i :| 0 <= i < |keys| && keys[i] == k;
        assert rest[i - 1] == k;
      }
    }
  }

  /** `sort.Strings` on distinct keys, as insertion. */
  function Insert(keys: seq<string>, key: string): seq<string> {
    if keys == [] || Before(key, keys[0]) then [key] + keys else [keys[0]] + Insert(keys[1..], key)
  }

  lemma {:induction false} InsertKeepsOrder(keys: seq<string>, key: string)
    requires Ascending(keys) && key !in Members(keys)
    ensures Ascending(Insert(keys, key)) && Members(Insert(keys, key)) == Members(keys) + {key}
  {
    var r := Insert(keys, key);
    if keys == [] {
      assert r == [key];
      assert r[0] in Members(r);
    } else if Before(key, keys[0]) {
      forall j | 0 < j < |r|
        ensures Before(key, r[j])
      {
        if j > 1 {
          BeforeIsTransitive(key, keys[0], keys[j - 1]);
        }
      }
      ConsMembers(key, keys);
    } else {
      assert keys[0] in Members(keys);
      BeforeIsTotal(key, keys[0]);
      TailIsAscending(keys);
      InsertKeepsOrder(keys[1..], key);
      var rest := Insert(keys[1..], key);
      forall j | 0 < j < |r|
        ensures Before(r[0], r[j])
      {
        assert rest[j - 1] in Members(rest);
        if rest[j - 1] != key {
          var i :| 0 <= i < |keys[1..]| && keys[1..][i] == rest[j - 1];
        }
      }
      ConsMembers(keys[0], rest);
    }
  }

  lemma ConsMembers(k: string, keys: seq<string>)
    ensures Members([k] + keys) == Members(keys) + {k}
  {
    var all := [k] + keys;
    forall x
      ensures x in Members(all) <==> x in Members(keys) || x == k
    {
      if x in Members(keys) {
        var i :| 0 <= i < |keys| && keys[i] == x;
        assert all[i + 1] == x;
      }
      assert all[0] == k;
    }
  }

  // ----- printing and reading

  function Line(key: string, value: string): string {
    key + "=" + value + "\n"
  }

  function Print(env: map<string, string>, keys: seq<string>): string
    requires Members(keys) <= env.Keys
  {
    if keys == [] then ""
    else
      assert keys[0] in Members(keys);
      assert forall i :: 0 <= i < |keys[1..]| ==> keys[1..][i] == keys[i + 1];
      Line(keys[0], env[keys[0]]) + Print(env, keys[1..])
  }

  /** The first position of `c`, or the length. */
  function IndexOf(s: string, c: char): (i: nat)
    ensures i <= |s| && c !in s[..i] && (i < |s| ==> s[i] == c)
  {
    if s == "" || s[0] == c then 0
    else
      var i := IndexOf(s[1..], c);
      assert s[..i + 1] == [s[0]] + s[1..][..i];
      i + 1
  }

  /** Reading: line by line, each cut at its first "="; a later line wins. */
  function Parse(s: string): map<string, string>
    decreases |s|
  {
    if s == "" then map[]
    else
      var n := IndexOf(s, '\n');
      var line := s[..n];
      var e := IndexOf(line, '=');
      var here := map[line[..e] := if e < |line| then line[e + 1..] else ""];
      here + Parse(if n < |s| then s[n + 1..] else "")
  }

  lemma {:induction false} IndexOfIs(before: string, c: char, after: string)
    requires c !in before
    ensures IndexOf(before + [c] + after, c) == |before|
  {
    var s := before + [c] + after;
    if before == "" {
      assert s[0] == c;
    } else {
      IndexOfIs(before[1..], c, after);
      assert s[0] == before[0] && s[1..] == before[1..] + [c] + after;
    }
  }

  lemma ParseLine(key: string, value: string, rest: string)
    requires ValidName(key) && ValidValue(value)
    ensures Parse(Line(key, value) + rest) == map[key := value] + Parse(rest)
  {
    var s := Line(key, value) + rest;
    var line := key + "=" + value;
    assert s == line + ['\n'] + rest;
    IndexOfIs(line, '\n', rest);
    assert s[..|line|] == line && s[|line| + 1..] == rest;
    assert line == key + ['='] + value;
    IndexOfIs(key, '=', value);
    assert line[..|key|] == key && line[|key| + 1..] == value;
  }

  function Restrict(env: map<string, string>, keys: seq<string>): map<string, string>
    requires Members(keys) <= env.Keys
  {
    map k | k in Members(keys) :: env[k]
  }

  lemma RestrictHead(env: map<string, string>, keys: seq<string>)
    requires keys != [] && Members(keys) <= env.Keys
    ensures keys[0] in env && Members(keys) == Members(keys[1..]) + {keys[0]}
    ensures Restrict(env, keys) == map[keys[0] := env[keys[0]]] + Restrict(env, keys[1..])
  {
    assert keys == [keys[0]] + keys[1..];
    ConsMembers(keys[0], keys[1..]);
    var tail := Restrict(env, keys[1..]);
    assert tail.Keys == Members(keys[1..]);
    assert Restrict(env, keys).Keys == tail.Keys + {keys[0]};
  }

  /** Whatever the order of the keys, the file reads back as exactly the map it was printed from. */
  lemma {:induction false} RoundTrip(env: map<string, string>, keys: seq<string>)
    requires Accepted(env) && Members(keys) <= env.Keys
    ensures Parse(Print(env, keys)) == Restrict(env, keys)
  {
    if keys != [] {
      var rest := keys[1..];
      RestrictHead(env, keys);
      RoundTrip(env, rest);
      ParseLine(keys[0], env[keys[0]], Print(env, rest));
    }
  }

  lemma {:induction false} PrintAppend(env: map<string, string>, keys: seq<string>, n: nat)
    requires Members(keys) <= env.Keys && n < |keys|
    ensures keys[n] in env && Members(keys[..n + 1]) <= env.Keys && Members(keys[..n]) <= env.Keys
    ensures Print(env, keys[..n + 1]) == Print(env, keys[..n]) + Line(keys[n], env[keys[n]])
    decreases |keys|
  {
    assert forall i :: 0 <= i < |keys| ==> keys[i] in Members(keys);
    assert forall i :: 0 <= i < n + 1 ==> keys[..n + 1][i] == keys[i];
    if n == 0 {
      assert keys[..1] == [keys[0]] && keys[..0] == [];
      assert [keys[0]][1..] == [];
    } else {
      assert Members(keys[1..]) <= env.Keys by {
        assert forall i :: 0 <= i < |keys[1..]| ==> keys[1..][i] == keys[i + 1];
      }
      PrintAppend(env, keys[1..], n - 1);
      assert keys[..n + 1][1..] == keys[1..][..n] && keys[..n][1..] == keys[1..][..n - 1];
    }
  }

  /** The first half: check names in whatever order the map yields them, and sort the ones seen. */
  method CollectKeys(env: map<string, string>) returns (r: Result<seq<string>>)
    ensures r.Ok? <==> forall k :: k in env ==> ValidName(k)
    ensures r.Ok? ==> Ascending(r.value) && Members(r.value) == env.Keys
  {
    var keys: seq<string> := [];
    var todo := env.Keys;
    while todo != {}
      invariant todo <= env.Keys && Members(keys) == env.Keys - todo && Ascending(keys)
      invariant forall k :: k in env && k !in todo ==> ValidName(k)
      decreases |todo|
    {
      var key :| key in todo;
      if !ValidName(key) {
        return Err;
      }
      InsertKeepsOrder(keys, key);
      keys := Insert(keys, key);
      todo := todo - {key};
    }
    return Ok(keys);
  }

  /** The second half: check values in key order, printing as it goes. */
  method PrintLines(env: map<string, string>, keys: seq<string>) returns (r: Result<string>)
    requires Members(keys) <= env.Keys
    ensures r.Ok? <==> forall i :: 0 <= i < |keys| ==> keys[i] in env && ValidValue(env[keys[i]])
    ensures r.Ok? ==> r.value == Print(env, keys)
  {
    var content := "";
    for i := 0 to |keys|
      invariant Members(keys[..i]) <= env.Keys && content == Print(env, keys[..i])
      invariant forall j :: 0 <= j < i ==> keys[j] in env && ValidValue(env[keys[j]])
    {
      PrintAppend(env, keys, i);
      if !ValidValue(env[keys[i]]) {
        return Err;
      }
      content := content + Line(keys[i], env[keys[i]]);
    }
    assert keys[..|keys|] == keys;
    return Ok(content);
  }

  /**
   Writing succeeds exactly on accepted maps; the file is the one printing of the map in ascending key order,
   whatever order the map was iterated in, and it reads back as the map.
   */
  method WriteEnvFile(env: map<string, string>) returns (r: Result<string>)
    ensures r.Ok? <==>
            forall k :: k in env ==> ValidName(k) && '\0' !in env[k] && '\r' !in env[k] && '\n' !in env[k]
    ensures r.Ok? ==> Parse(r.value) == env
    ensures r.Ok? ==> forall keys :: Ascending(keys) && Members(keys) == env.Keys ==> r.value == Print(env, keys)
  {
    var collected := CollectKeys(env);
    if collected.Err? {
      return Err;
    }
    var keys := collected.value;
    r := PrintLines(env, keys);
    assert r.Ok? <==> Accepted(env) by {
      assert forall k :: k in env <==> k in Members(keys);
    }
    if r.Ok? {
      RoundTrip(env, keys);
      assert (map k | k in Members(keys) :: env[k]) == env;
      forall other | Ascending(other) && Members(other) == env.Keys
        ensures r.value == Print(env, other)
      {
        AscendingIsUnique(keys, other);
      }
    }
  }
}
