/** src/app/enterprise_audit.py: redact_sensitive, and exactly what its output reveals. */
module AuditRedaction {
  import opened Values

  const REDACT_FIELDS := {
    "password", "secret", "token", "authorization", "access_token", "id_token", "refresh_token",
    "cookie", "session_secret", "capability_set", "ssn", "account_number", "client_email"
  }

  const MARKER := Str("***REDACTED***")

  predicate Sensitive(key: string) {
    Lower(key) in REDACT_FIELDS
  }

  function Redact(value: Json): Json {
    match value
    case Obj(fields) => Obj(map key | key in fields :: if Sensitive(key) then MARKER else Redact(fields[key]))
    case List(items) => List(seq(|items|, i requires 0 <= i < |items| => Redact(items[i])))
    case _ => value
  }

  method RedactSensitive(value: Json) returns (r: Json)
    ensures r == Redact(value)
    decreases value, 1
  {
    match value {
      case Obj(_) => r := RedactDict(value);
      case List(_) => r := RedactList(value);
      case _ => r := value;
    }
  }

  /** The object branch: fill `out` key by key. */
  method RedactDict(value: Json) returns (r: Json)
    requires value.Obj?
    ensures r == Redact(value)
    decreases value, 0
  {
    var out: Dict := map[];
    var keys := value.fields.Keys;
    while keys != {}
      invariant keys <= value.fields.Keys && out.Keys == value.fields.Keys - keys
      invariant forall key | key in out :: out[key] == Redact(value).fields[key]
      decreases |keys|
    {
      var key :| key in keys;
      var item := MARKER;
      if !Sensitive(key) {
        item := RedactSensitive(value.fields[key]);
      }
      out := out[key := item];
      keys := keys - {key};
    }
    r := Obj(out);
  }

  /** The list branch. */
  method RedactList(value: Json) returns (r: Json)
    requires value.List?
    ensures r == Redact(value)
    decreases value, 0
  {
    var out := [];
    for i := 0 to |value.items|
      invariant out == Redact(value).items[..i]
    {
      var item := RedactSensitive(value.items[i]);
      out := out + [item];
    }
    r := List(out);
  }

  lemma ListedInLowerCase(name: string)
    requires name in REDACT_FIELDS
    ensures Lower(name) == name
  {
    assert forall i | 0 <= i < |name| :: LowerChar(name[i]) == name[i];
  }

  /** Every spelling of a listed name is sensitive, whatever the case of its letters, and no other
      key is. */
  lemma SensitiveExactly(key: string)
    ensures Sensitive(key) <==> exists name :: name in REDACT_FIELDS && SameButCase(key, name)
  {
    if Sensitive(key) {
      ListedInLowerCase(Lower(key));
      CaseForgotten(key, Lower(key));
    }
    forall name | name in REDACT_FIELDS && SameButCase(key, name) ensures Sensitive(key) {
      ListedInLowerCase(name);
      CaseForgotten(key, name);
    }
  }

  // ---------------------------------------------------------------- what can be seen

  /** A step into a value: a key of an object or an index of a list. */
  datatype Step = Key(key: string) | Index(i: nat)

  /** What is found at a place: nothing, the keys of an object, the length of a list, or a
      scalar. */
  datatype Sight = Nothing | Keys(keys: set<string>) | Length(n: nat) | Scalar(value: Json)

  ghost function Look(value: Json, path: seq<Step>): Sight
    decreases |path|
  {
    if path == [] then
      match value
      case Obj(fields) => Keys(fields.Keys)
      case List(items) => Length(|items|)
      case _ => Scalar(value)
    else
      match (value, path[0])
      case (Obj(fields), Key(k)) => if k in fields then Look(fields[k], path[1..]) else Nothing
      case (List(items), Index(i)) => if i < |items| then Look(items[i], path[1..]) else Nothing
      case _ => Nothing
  }

  /** A path that passes no sensitive key. */
  ghost predicate Open(path: seq<Step>) {
    forall i | 0 <= i < |path| :: path[i].Key? ==> !Sensitive(path[i].key)
  }

  ghost predicate AgreeInTheOpen(a: Json, b: Json) {
    forall path | Open(path) :: Look(a, path) == Look(b, path)
  }

  /** Redaction changes nothing along an open path. */
  lemma {:induction false} RedactKeepsOpenSights(value: Json, path: seq<Step>)
    requires Open(path)
    ensures Look(Redact(value), path) == Look(value, path)
    decreases |path|
  {
    if path != [] {
      match (value, path[0])
      case (Obj(fields), Key(k)) =>
        if k in fields {
          RedactKeepsOpenSights(fields[k], path[1..]);
        }
      case (List(items), Index(i)) =>
        if i < |items| {
          RedactKeepsOpenSights(items[i], path[1..]);
        }
      case _ =>
    } else {
      match value
      case Obj(fields) => assert Redact(value).fields.Keys == fields.Keys;
      case _ =>
    }
  }

  /** At the first sensitive key of a path only the marker can be seen, and nothing below it. */
  lemma {:induction false} RedactHidesSecrets(value: Json, path: seq<Step>, key: string, below: seq<Step>)
    requires Open(path) && Sensitive(key)
    ensures Look(Redact(value), path + [Key(key)] + below)
            in {Nothing, if below == [] then Scalar(MARKER) else Nothing}
    decreases |path|
  {
    var whole := path + [Key(key)] + below;
    if path == [] {
      assert whole[1..] == below;
    } else {
      assert whole[1..] == path[1..] + [Key(key)] + below;
      match (value, path[0])
      case (Obj(fields), Key(k)) =>
        if k in fields {
          RedactHidesSecrets(fields[k], path[1..], key, below);
        }
      case (List(items), Index(i)) =>
        if i < |items| {
          RedactHidesSecrets(items[i], path[1..], key, below);
        }
      case _ =>
    }
  }

  lemma AgreeBelow(a: Json, b: Json, first: Step, a': Json, b': Json)
    requires AgreeInTheOpen(a, b) && Open([first])
    requires forall rest :: Look(a, [first] + rest) == Look(a', rest) && Look(b, [first] + rest) == Look(b', rest)
    ensures AgreeInTheOpen(a', b')
  {
    forall path | Open(path) ensures Look(a', path) == Look(b', path) {
      assert Open([first] + path);
    }
  }

  lemma LookKey(fields: Dict, k: string)
    requires k in fields
    ensures forall rest :: Look(Obj(fields), [Key(k)] + rest) == Look(fields[k], rest)
  {
    forall rest ensures Look(Obj(fields), [Key(k)] + rest) == Look(fields[k], rest) {
      assert ([Key(k)] + rest)[1..] == rest;
    }
  }

  lemma LookIndex(items: seq<Json>, i: nat)
    requires i < |items|
    ensures forall rest :: Look(List(items), [Index(i)] + rest) == Look(items[i], rest)
  {
    forall rest ensures Look(List(items), [Index(i)] + rest) == Look(items[i], rest) {
      assert ([Index(i)] + rest)[1..] == rest;
    }
  }

  lemma {:induction false} AgreeingValuesRedactAlike(a: Json, b: Json)
    requires AgreeInTheOpen(a, b)
    ensures Redact(a) == Redact(b)
    decreases a
  {
    assert Open([]) && Look(a, []) == Look(b, []);
    match (a, b)
    case (Obj(x), Obj(y)) =>
      forall k | k in x && !Sensitive(k) ensures Redact(x[k]) == Redact(y[k]) {
        LookKey(x, k);
        LookKey(y, k);
        AgreeBelow(a, b, Key(k), x[k], y[k]);
        AgreeingValuesRedactAlike(x[k], y[k]);
      }
      assert Redact(a).fields == Redact(b).fields;
    case (List(x), List(y)) =>
      forall i | 0 <= i < |x| ensures Redact(x[i]) == Redact(y[i]) {
        LookIndex(x, i);
        LookIndex(y, i);
        AgreeBelow(a, b, Index(i), x[i], y[i]);
        AgreeingValuesRedactAlike(x[i], y[i]);
      }
      assert Redact(a).items == Redact(b).items;
    case _ =>
  }

  /** Non-interference, exactly: two values redact to the same output if and only if they
      agree at every depth on every path that passes no sensitive key. */
  lemma RedactionKernel(a: Json, b: Json)
    ensures Redact(a) == Redact(b) <==> AgreeInTheOpen(a, b)
  {
    if Redact(a) == Redact(b) {
      forall path | Open(path) ensures Look(a, path) == Look(b, path) {
        RedactKeepsOpenSights(a, path);
        RedactKeepsOpenSights(b, path);
      }
    } else if AgreeInTheOpen(a, b) {
      AgreeingValuesRedactAlike(a, b);
    }
  }

  lemma RedactIdempotent(value: Json)
    ensures Redact(Redact(value)) == Redact(value)
  {
    forall path | Open(path) ensures Look(Redact(value), path) == Look(value, path) {
      RedactKeepsOpenSights(value, path);
    }
    AgreeingValuesRedactAlike(Redact(value), value);
  }
}
