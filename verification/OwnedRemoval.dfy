/**
 Removing a sandbox container only on proof of ownership: the reader of the inspection output, and the
 inspect-then-remove protocol against an engine on which other actors create, rename and remove.
 */
module OwnedRemoval {
  import opened Wrappers

  // ----- the inspection output

  /** The JSON decoder's view of the output; keys are the strings at key positions. */
  datatype Token = Open | Close | Text(text: string) | Null | OtherValue | Malformed

  predicate IsHexDigit(c: char) {
    '0' <= c <= '9' || 'a' <= c <= 'f' || 'A' <= c <= 'F'
  }

  function Lower(c: char): char {
    if 'A' <= c <= 'Z' then c - 'A' + 'a' else c
  }

  /** 64 characters, unchanged by lowering, that decode as hexadecimal. */
  predicate IdAccepted(id: string) {
    && |id| == 64
    && (forall i :: 0 <= i < |id| ==> Lower(id[i]) == id[i])
    && (forall i :: 0 <= i < |id| ==> IsHexDigit(id[i]))
  }

  /** A full container ID: 64 lower-case hexadecimal digits. */
  predicate FullId(id: string) {
    |id| == 64 && forall i :: 0 <= i < |id| ==> '0' <= id[i] <= '9' || 'a' <= id[i] <= 'f'
  }

  /** One object with the two keys, once each, in either order. */
  function Proof(id: string, owner: string, idFirst: bool): seq<Token> {
    if idFirst then [Open, Text("id"), Text(id), Text("owner"), Text(owner), Close]
    else [Open, Text("owner"), Text(owner), Text("id"), Text(id), Close]
  }

  /** The identity a proof authorises to remove, for exactly the outputs that are one. */
  function ReadProof(raw: seq<Token>, owner: string): Result<string> {
    if owner == "" || |raw| != 6 || !raw[2].Text? || !raw[4].Text? then Err
    else if raw == Proof(raw[2].text, owner, true) && FullId(raw[2].text) then Ok(raw[2].text)
    else if raw == Proof(raw[4].text, owner, false) && FullId(raw[4].text) then Ok(raw[4].text)
    else Err
  }

  /** Accepted are exactly the one-object outputs with both keys once, in either order, this owner, and a full ID. */
  lemma ReadProofAccepts(raw: seq<Token>, owner: string, id: string)
    ensures ReadProof(raw, owner) == Ok(id) <==>
            owner != "" && FullId(id) && (raw == Proof(id, owner, true) || raw == Proof(id, owner, false))
  {
    if raw == Proof(id, owner, true) {
      assert raw[1] == Text("id") && "id"[0] != "owner"[0];
    }
  }

  /** The key and value at `at` are what `fields` holds under `key`. */
  ghost predicate Holds(raw: seq<Token>, at: nat, key: string, fields: map<string, string>)
  {
    && at + 1 < |raw| && raw[at] == Text(key) && key in fields
    && (raw[at + 1] == Text(fields[key]) || (raw[at + 1] == Null && fields[key] == ""))
  }

  function Other(key: string): string {
    if key == "id" then "owner" else "id"
  }

  /** What the loop knows at token `i`: the pairs read so far, `first` being the key that came first. */
  ghost predicate Scanned(raw: seq<Token>, i: nat, fields: map<string, string>, first: string) {
    && 1 <= i <= |raw| && raw[0] == Open
    && fields.Keys <= {"id", "owner"} && i == 1 + 2 * |fields|
    && (|fields| >= 1 ==> first in {"id", "owner"} && first in fields && Holds(raw, 1, first, fields))
    && (|fields| == 1 ==> fields.Keys == {first})
    && (|fields| == 2 ==> fields.Keys == {"id", "owner"} && Holds(raw, 3, Other(first), fields))
  }

  /** Both keys read: a third pair would repeat one of them. */
  lemma TwoKeysAreAll(fields: map<string, string>, key: string)
    requires fields.Keys <= {"id", "owner"} && key in {"id", "owner"} && key !in fields
    ensures |fields| <= 1 && (|fields| == 0 ==> fields == map[])
  {
    assert fields.Keys <= {Other(key)};
    assert |fields.Keys| == |fields|;
    if fields.Keys != {} {
      assert fields.Keys == {Other(key)};
    }
  }

  lemma OneMoreKey(fields: map<string, string>, key: string, value: string)
    requires key !in fields
    ensures fields[key := value].Keys == fields.Keys + {key}
    ensures |fields[key := value]| == |fields| + 1
  {
    assert |fields[key := value].Keys| == |fields[key := value]| && |fields.Keys| == |fields|;
  }

  lemma FirstPair(raw: seq<Token>, key: string, value: string)
    requires |raw| >= 3 && raw[0] == Open && key in {"id", "owner"} && raw[1] == Text(key)
    requires raw[2] == Text(value) || (raw[2] == Null && value == "")
    ensures Scanned(raw, 3, map[key := value], key)
  {
    var fields := map[key := value];
    assert fields.Keys == {key} && |fields| == 1;
    assert Holds(raw, 1, key, fields);
  }

  lemma SecondPair(raw: seq<Token>, fields: map<string, string>, first: string, key: string, value: string)
    requires Scanned(raw, 3, fields, first) && |raw| >= 5 && |fields| == 1
    requires key in {"id", "owner"} && key !in fields && raw[3] == Text(key)
    requires raw[4] == Text(value) || (raw[4] == Null && value == "")
    ensures Scanned(raw, 5, fields[key := value], first)
  {
    var more := fields[key := value];
    OneMoreKey(fields, key, value);
    assert fields.Keys == {first} && key == Other(first);
    assert more.Keys == {first, key};
    assert Holds(raw, 1, first, more) && Holds(raw, 3, key, more);
  }

  /** One key and its value read. */
  lemma ScanPair(raw: seq<Token>, i: nat, fields: map<string, string>, first: string, key: string, value: string)
    requires Scanned(raw, i, fields, first) && i + 1 < |raw|
    requires key in {"id", "owner"} && key !in fields && raw[i] == Text(key)
    requires raw[i + 1] == Text(value) || (raw[i + 1] == Null && value == "")
    ensures Scanned(raw, i + 2, fields[key := value], if |fields| == 0 then key else first)
  {
    TwoKeysAreAll(fields, key);
    if |fields| == 0 {
      FirstPair(raw, key, value);
    } else {
      SecondPair(raw, fields, first, key, value);
    }
  }

  /** Everything read: the tokens are the proof they spell. */
  lemma ScanEnd(raw: seq<Token>, i: nat, fields: map<string, string>, first: string, owner: string)
    requires Scanned(raw, i, fields, first) && |fields| == 2 && i + 1 == |raw| && raw[i] == Close
    requires fields["owner"] == owner && owner != "" && fields["id"] != ""
    ensures raw == Proof(fields["id"], owner, first == "id")
  {
  }

  lemma ProofShape(raw: seq<Token>, owner: string)
    requires ReadProof(raw, owner).Ok?
    ensures |raw| == 6 && raw[0] == Open && raw[5] == Close && owner != ""
    ensures raw[2].Text? && raw[4].Text?
    ensures (raw[1] == Text("id") && raw[3] == Text("owner") && raw[4].text == owner && FullId(raw[2].text)) ||
            (raw[1] == Text("owner") && raw[3] == Text("id") && raw[2].text == owner && FullId(raw[4].text))
  {
  }

  /** A proof in which the loop has read some pairs, but not all, goes on with another key and a string. */
  lemma ProofGoesOn(raw: seq<Token>, owner: string, i: nat, fields: map<string, string>, first: string)
    requires ReadProof(raw, owner).Ok? && Scanned(raw, i, fields, first)
    ensures i < |raw|
    ensures |fields| < 2 ==>
              raw[i].Text? && raw[i].text in {"id", "owner"} && raw[i].text !in fields && raw[i + 1].Text?
    ensures |fields| == 2 ==> raw[i] == Close && i + 1 == |raw| && fields["owner"] == owner && FullId(fields["id"])
  {
    ProofShape(raw, owner);
    assert "id"[0] != "owner"[0];
    assert |fields| == 0 ==> fields.Keys == {};
    assert |fields.Keys| == |fields|;
    KeysUpToTwo(fields);
  }

  lemma KeysUpToTwo(fields: map<string, string>)
    requires fields.Keys <= {"id", "owner"}
    ensures |fields| <= 2
  {
    if |fields| > 0 {
      var key :| key in fields.Keys;
      TwoKeysAreAll(fields - {key}, key);
      assert fields.Keys == (fields - {key}).Keys + {key};
      assert |(fields - {key}).Keys| == |fields - {key}| && |fields.Keys| == |fields|;
    }
  }

  /** The reader: a loop over decoder tokens filling `fields`, then the checks. A null decodes as the empty string. */
  method OwnedSandboxId(raw: seq<Token>, owner: string) returns (r: Result<string>)
    ensures r == ReadProof(raw, owner)
  {
    if |raw| == 0 || raw[0] != Open {
      return Err;
    }
    var fields: map<string, string> := map[];
    var i := 1;
    ghost var first := "";
    while i < |raw| && raw[i] != Close
      invariant Scanned(raw, i, fields, first)
      decreases |raw| - i
    {
      if ReadProof(raw, owner).Ok? {
        ProofGoesOn(raw, owner, i, fields, first);
      }
      var token := raw[i];
      if !token.Text? || (token.text != "id" && token.text != "owner") || token.text in fields {
        return Err;
      }
      if i + 1 >= |raw| || !(raw[i + 1].Text? || raw[i + 1].Null?) {
        return Err;
      }
      var value := if raw[i + 1].Text? then raw[i + 1].text else "";
      ScanPair(raw, i, fields, first, token.text, value);
      if |fields| == 0 {
        first := token.text;
      }
      fields := fields[token.text := value];
      i := i + 2;
    }
    if ReadProof(raw, owner).Ok? {
      ProofGoesOn(raw, owner, i, fields, first);
    }
    if i >= |raw| || i + 1 < |raw| {
      return Err;
    }
    var id := if "id" in fields then fields["id"] else "";
    AcceptedIdsAreFull(id);
    if |fields| != 2 || fields["owner"] != owner || owner == "" || !IdAccepted(id) {
      return Err;
    }
    ScanEnd(raw, i, fields, first, owner);
    ReadProofAccepts(raw, owner, id);
    return Ok(id);
  }

  lemma AcceptedIdsAreFull(id: string)
    ensures IdAccepted(id) <==> FullId(id)
  {
    if IdAccepted(id) {
      forall i | 0 <= i < |id|
        ensures '0' <= id[i] <= '9' || 'a' <= id[i] <= 'f'
      {
        assert Lower(id[i]) == id[i] && IsHexDigit(id[i]);
      }
    }
  }

  // ----- the engine and everyone acting on it

  /** `born` remembers every container ever created with its owner label; labels and IDs never change or come back. */
  datatype Engine = Engine(born: map<string, Option<string>>, alive: set<string>, names: map<string, string>)

  /** What the two-field inspection prints; a missing label prints null. */
  function Inspection(id: string, tag: Option<string>): seq<Token> {
    [Open, Text("id"), Text(id), Text("owner"), if tag.Some? then Text(tag.value) else Null, Close]
  }

  datatype Phase = Idle | Inspected(output: seq<Token>) | Authorised(id: string) | Ended

  /** One cleanup: the name it looks up, its own owner token, and how far it has come. */
  datatype Attempt = Attempt(name: string, token: string, phase: Phase)

  datatype Removal = Removal(attempt: nat, id: string)

  datatype State = State(engine: Engine, attempts: seq<Attempt>, issued: seq<Removal>)

  datatype Event =
    | Create(id: string, tag: Option<string>)
    | Destroy(id: string)
    | Bind(name: string, id: string)
    | Unbind(name: string)
    | Inspect(k: nat)
    | Fail(k: nat)
    | Decide(k: nat)
    | Remove(k: nat, works: bool)

  predicate Enabled(st: State, e: Event) {
    match e
    case Create(id, _) => id !in st.engine.born && FullId(id)
    case Destroy(_) => true
    case Bind(_, id) => id in st.engine.alive
    case Unbind(_) => true
    case Inspect(k) =>
      && k < |st.attempts| && st.attempts[k].phase.Idle?
      && st.attempts[k].name != "" && st.attempts[k].token != ""
      && st.attempts[k].name in st.engine.names && st.engine.names[st.attempts[k].name] in st.engine.born
    case Fail(k) => k < |st.attempts|
    case Decide(k) => k < |st.attempts| && st.attempts[k].phase.Inspected?
    case Remove(k, _) => k < |st.attempts| && st.attempts[k].phase.Authorised?
  }

  function Kill(g: Engine, id: string): Engine {
    g.(alive := g.alive - {id}, names := map n | n in g.names && g.names[n] != id :: g.names[n])
  }

  function Apply(st: State, e: Event): State
    requires Enabled(st, e)
  {
    var g := st.engine;
    match e
    case Create(id, tag) => st.(engine := g.(born := g.born[id := tag], alive := g.alive + {id}))
    case Destroy(id) => st.(engine := Kill(g, id))
    case Bind(name, id) => st.(engine := g.(names := g.names[name := id]))
    case Unbind(name) => st.(engine := g.(names := g.names - {name}))
    case Inspect(k) =>
      var id := g.names[st.attempts[k].name];
      st.(attempts := st.attempts[k := st.attempts[k].(phase := Inspected(Inspection(id, g.born[id])))])
    case Fail(k) => st.(attempts := st.attempts[k := st.attempts[k].(phase := Ended)])
    case Decide(k) =>
      var a := st.attempts[k];
      st.(attempts := st.attempts[k := a.(phase := match ReadProof(a.phase.output, a.token)
                                                   case Ok(id) => Authorised(id)
                                                   case Err => Ended)])
    case Remove(k, works) =>
      var a := st.attempts[k];
      State(if works then Kill(g, a.phase.id) else g,
            st.attempts[k := a.(phase := Ended)],
            st.issued + [Removal(k, a.phase.id)])
  }

  /** The inspection of a container proves ownership to exactly the token on its label. */
  lemma InspectionProves(id: string, tag: Option<string>, token: string)
    ensures ReadProof(Inspection(id, tag), token).Ok? <==> token != "" && FullId(id) && tag == Some(token)
    ensures ReadProof(Inspection(id, tag), token).Ok? ==> ReadProof(Inspection(id, tag), token).value == id
  {
    var raw := Inspection(id, tag);
    assert raw[1] == Text("id") && "id"[0] != "owner"[0];
    if tag == Some(token) {
      assert raw == Proof(id, token, true);
    } else if tag.Some? {
      assert raw[4] != Text(token);
    }
  }

  ghost predicate AttemptInv(g: Engine, a: Attempt) {
    match a.phase
    case Inspected(output) => exists id :: id in g.born && output == Inspection(id, g.born[id])
    case Authorised(id) => FullId(id) && id in g.born && g.born[id] == Some(a.token)
    case _ => true
  }

  ghost predicate Rightful(st: State, r: Removal) {
    r.attempt < |st.attempts| && FullId(r.id) && r.id in st.engine.born
    && st.engine.born[r.id] == Some(st.attempts[r.attempt].token)
  }

  ghost predicate Inv(st: State) {
    && (forall k :: 0 <= k < |st.attempts| ==> AttemptInv(st.engine, st.attempts[k]))
    && (forall i :: 0 <= i < |st.issued| ==> Rightful(st, st.issued[i]))
  }

  lemma StepKeepsAttempt(st: State, e: Event, k: nat)
    requires Inv(st) && Enabled(st, e) && k < |st.attempts|
    ensures |Apply(st, e).attempts| == |st.attempts|
    ensures AttemptInv(Apply(st, e).engine, Apply(st, e).attempts[k])
    ensures Apply(st, e).attempts[k].token == st.attempts[k].token
    ensures forall id :: id in st.engine.born ==>
              id in Apply(st, e).engine.born && Apply(st, e).engine.born[id] == st.engine.born[id]
  {
    var a := st.attempts[k];
    assert AttemptInv(st.engine, a);
    if a.phase.Inspected? {
      var id :| id in st.engine.born && a.phase.output == Inspection(id, st.engine.born[id]);
      InspectionProves(id, st.engine.born[id], a.token);
      assert id in Apply(st, e).engine.born && Apply(st, e).engine.born[id] == st.engine.born[id];
    }
  }

  lemma StepKeepsInv(st: State, e: Event)
    requires Inv(st) && Enabled(st, e)
    ensures Inv(Apply(st, e))
  {
    var st' := Apply(st, e);
    forall k | 0 <= k < |st'.attempts|
      ensures AttemptInv(st'.engine, st'.attempts[k])
    {
      StepKeepsAttempt(st, e, k);
    }
    forall i | 0 <= i < |st'.issued|
      ensures Rightful(st', st'.issued[i])
    {
      var r := st'.issued[i];
      if i < |st.issued| {
        assert Rightful(st, st.issued[i]);
      } else {
        assert AttemptInv(st.engine, st.attempts[e.k]);
      }
      StepKeepsAttempt(st, e, r.attempt);
    }
  }

  ghost predicate Run(trace: seq<State>, events: seq<Event>) {
    && |trace| == |events| + 1
    && (forall k :: 0 <= k < |trace[0].attempts| ==> trace[0].attempts[k].phase.Idle?) && trace[0].issued == []
    && forall i :: 0 <= i < |events| ==> Enabled(trace[i], events[i]) && trace[i + 1] == Apply(trace[i], events[i])
  }

  lemma {:induction false} RunKeepsInv(trace: seq<State>, events: seq<Event>, i: nat)
    requires Run(trace, events) && i < |trace|
    ensures Inv(trace[i])
  {
    if i > 0 {
      RunKeepsInv(trace, events, i - 1);
      StepKeepsInv(trace[i - 1], events[i - 1]);
    }
  }

  /**
   In every run, whatever others create, rename or remove in between, each removal issued names a full ID whose
   label is the issuing attempt's own token; so an attempt never removes a container labelled for another token,
   nor one without the label.
   */
  lemma OwnedRemovalOnly(trace: seq<State>, events: seq<Event>, i: nat, r: Removal, token: string)
    requires Run(trace, events) && i < |trace| && r in trace[i].issued
    ensures Rightful(trace[i], r)
    ensures trace[i].engine.born[r.id] == Some(token) ==> trace[i].attempts[r.attempt].token == token
  {
    RunKeepsInv(trace, events, i);
  }

  /** The other direction: an attempt that inspects its own live container and is not stopped removes that container. */
  lemma OwnContainerIsRemoved(st: State, k: nat, id: string)
    requires k < |st.attempts| && st.attempts[k].phase.Idle? && st.attempts[k].name != "" && st.attempts[k].token != ""
    requires st.attempts[k].name in st.engine.names && st.engine.names[st.attempts[k].name] == id
    requires id in st.engine.born && st.engine.born[id] == Some(st.attempts[k].token) && FullId(id)
    ensures Enabled(st, Inspect(k))
    ensures var st1 := Apply(st, Inspect(k));
            && Enabled(st1, Decide(k))
            && var st2 := Apply(st1, Decide(k));
               && Enabled(st2, Remove(k, true))
               && var st3 := Apply(st2, Remove(k, true));
                  && st3.issued == st.issued + [Removal(k, id)]
                  && id !in st3.engine.alive && st.attempts[k].name !in st3.engine.names
  {
    InspectionProves(id, st.engine.born[id], st.attempts[k].token);
  }

  /**
   An attempt that finds another's container, or one without the label, ends there: no removal, and nothing
   changed.
   */
  lemma ForeignContainerIsLeft(st: State, k: nat, id: string)
    requires k < |st.attempts| && st.attempts[k].phase.Idle? && st.attempts[k].name != "" && st.attempts[k].token != ""
    requires st.attempts[k].name in st.engine.names && st.engine.names[st.attempts[k].name] == id
    requires id in st.engine.born && st.engine.born[id] != Some(st.attempts[k].token)
    ensures Enabled(st, Inspect(k)) && Enabled(Apply(st, Inspect(k)), Decide(k))
    ensures var st' := Apply(Apply(st, Inspect(k)), Decide(k));
            && st'.engine == st.engine && st'.issued == st.issued
            && forall e :: e != Fail(k) && (e.Inspect? || e.Decide? || e.Remove?) && e.k == k ==> !Enabled(st', e)
  {
    InspectionProves(id, st.engine.born[id], st.attempts[k].token);
  }
}
