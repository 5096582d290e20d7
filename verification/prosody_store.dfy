/**
 The `Prosody` model: one row of the chat server's shared key/value table,
 indexed by (host, user, store, key). Before a row is written, `save` recomputes
 its `type` column from (store, key) alone, by an ordered rule table.
 */
module ProsodyStore {
  import opened Basics

  /** The four type tags the chat server understands. */
  datatype StoredType = StringType | NumberType | JsonType | BooleanType {
    /** The text written to the `type` column. */
    function Tag(): string {
      match this
      case StringType => "string"
      case NumberType => "number"
      case JsonType => "json"
      case BooleanType => "boolean"
    }
  }

  /** A row of the shared table. `kind` is the `type` column, kept as text
      because rows written by the chat server itself may carry any tag. */
  datatype Row = Row(host: string, user: string, store: string, key: string, kind: string, value: string)

  /** Reads a `type` column back. */
  function ParseTag(tag: string): (t: Option<StoredType>)
    ensures t.Some? ==> t.value.Tag() == tag
    ensures (exists s: StoredType :: s.Tag() == tag) ==> t.Some?
  {
    if tag == "string" then Some(StringType)
    else if tag == "number" then Some(NumberType)
    else if tag == "json" then Some(JsonType)
    else if tag == "boolean" then Some(BooleanType)
    else None
  }

  lemma TagRoundTrip(t: StoredType)
    ensures ParseTag(t.Tag()) == Some(t)
  {
  }

  /** One line of the rule table: it fires when each field it names matches. */
  datatype Rule = Rule(store: Option<string>, key: Option<string>, result: StoredType)

  predicate Fires(rule: Rule, store: string, key: string) {
    (rule.store.None? || rule.store.value == store) && (rule.key.None? || rule.key.value == key)
  }

  /** The rules of `save`, tried top to bottom. */
  const TypeRules: seq<Rule> := [
    Rule(Some("lastlog"), Some("timestamp"), NumberType),
    Rule(Some("accounts"), Some("iterations"), NumberType),
    Rule(Some("roster"), None, JsonType),
    Rule(None, Some("persistence"), BooleanType)
  ]

  /** The type used when no rule fires. */
  const DefaultType: StoredType := StringType

  /** Index of the first rule that fires, or `|rules|` if none does. */
  function FirstFiring(rules: seq<Rule>, store: string, key: string): (i: nat)
    ensures i <= |rules|
    ensures i < |rules| ==> Fires(rules[i], store, key)
    ensures forall j :: 0 <= j < i ==> !Fires(rules[j], store, key)
  {
    if rules == [] then 0
    else if Fires(rules[0], store, key) then 0
    else 1 + FirstFiring(rules[1..], store, key)
  }

  /** The type `save` assigns: the first firing rule's, else the default. */
  function InferType(store: string, key: string): (t: StoredType)
    ensures t == NumberType <==> (store == "lastlog" && key == "timestamp") || (store == "accounts" && key == "iterations")
    ensures t == JsonType <==> store == "roster"
    ensures t == BooleanType <==> store != "roster" && key == "persistence"
    ensures t == StringType <==>
      && !(store == "lastlog" && key == "timestamp") && !(store == "accounts" && key == "iterations")
      && store != "roster" && key != "persistence"
  {
    var i := FirstFiring(TypeRules, store, key);
    assert !Fires(TypeRules[0], store, key) ==> !(store == "lastlog" && key == "timestamp");
    assert !Fires(TypeRules[1], store, key) ==> !(store == "accounts" && key == "iterations");
    assert !Fires(TypeRules[2], store, key) ==> store != "roster";
    assert !Fires(TypeRules[3], store, key) ==> key != "persistence";
    if i < |TypeRules| then TypeRules[i].result else DefaultType
  }

  /** `Prosody.save` before the write: the row with its type recomputed.
      The write itself (`super().save`) is not part of this model. */
  function Save(row: Row): (r: Row)
    ensures r.host == row.host && r.user == row.user && r.store == row.store
    ensures r.key == row.key && r.value == row.value
    ensures ParseTag(r.kind) == Some(InferType(row.store, row.key))
  {
    TagRoundTrip(InferType(row.store, row.key));
    row.(kind := InferType(row.store, row.key).Tag())
  }

  /** The stored type is always one of the four tags the server knows, and
      depends on nothing but (store, key): the previous tag and the value are
      ignored, so saving twice changes nothing more than saving once. */
  lemma SaveDependsOnlyOnStoreAndKey(row: Row, otherKind: string, otherValue: string)
    ensures Save(row).kind in {"string", "number", "json", "boolean"}
    ensures Save(row.(kind := otherKind)) == Save(row)
    ensures Save(row.(value := otherValue)).kind == Save(row).kind
    ensures Save(Save(row)) == Save(row)
  {
  }

  /** A roster row is typed `json` whatever its key, `persistence` included,
      because the roster rule comes before the persistence rule. */
  lemma RosterWinsOverPersistence(host: string, user: string, key: string, kind: string, value: string)
    ensures Save(Row(host, user, "roster", key, kind, value)).kind == "json"
    ensures Save(Row(host, user, "roster", "persistence", kind, value)).kind == "json"
  {
  }
}
