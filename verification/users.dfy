/**
 The site's `User` and `AnonymousUser`, as one identity with two cases, and the
 presence data a `User` reads from the chat server's `lastlog` store.

 The database query behind `_get_lastlog` is not modelled: the rows it would
 return for the user (store `lastlog`) are a parameter. The per-instance cache
 `_lastlog_data` is an explicit field of the user record.
 */
module Users {
  import opened Basics
  import opened ProsodyStore
  import opened Decimal
  import opened Strings

  /** A lastlog value after coercion: `number` rows become integers. */
  datatype LastlogValue = IntValue(n: int) | TextValue(s: string)

  /** The `ValueError` raised by `int` on a `number` row's text. */
  datatype ConversionError = ConversionError(text: string)

  /** A local user. `lastlogData` is the cache, `None` until first read. */
  datatype User = User(
    username: string,
    email: Option<string>,
    firstName: Option<string>,
    lastName: Option<string>,
    isActive: bool,
    isSuperuser: bool,
    dateJoined: int,
    timezone: Option<string>,
    lastlogData: Option<map<string, LastlogValue>>)

  /** The key/value map built from the lastlog rows, and the text whose
      conversion failed, if one did. */
  datatype Fill = Fill(data: map<string, LastlogValue>, bad: Option<string>)

  /** The result of one `_get_lastlog` call: the instance afterwards (its cache
      filled) and the value, absent key, or raised error. */
  datatype Lookup = Lookup(user: User, result: Result<Option<LastlogValue>, ConversionError>)

  // ---- Building the lastlog map ----------------------------------------------

  /** One row's value: `int(value)` when the row is typed `number`, the raw
      text otherwise; `None` where `int` raises. */
  function Coerce(row: Row): Option<LastlogValue> {
    if row.kind == NumberType.Tag() then
      match ParseInt(row.value)
      case Some(n) => Some(IntValue(n))
      case None => None
    else Some(TextValue(row.value))
  }

  /** The loop of `_get_lastlog`: rows are entered in order, a later row with
      the same key replacing an earlier one; a failing conversion stops the
      loop, leaving the entries made so far. */
  function Collect(rows: seq<Row>): (f: Fill)
    ensures f.bad.None? <==> forall i :: 0 <= i < |rows| ==> Coerce(rows[i]).Some?
    ensures f.bad.None? ==> f.data.Keys == set i | 0 <= i < |rows| :: rows[i].key
    ensures f.data.Keys <= set i | 0 <= i < |rows| :: rows[i].key
  {
    if rows == [] then Fill(map[], None)
    else
      var init := rows[..|rows| - 1];
      var row := rows[|rows| - 1];
      var f := Collect(init);
      assert forall i :: 0 <= i < |init| ==> init[i] == rows[i];
      assert (set i | 0 <= i < |rows| :: rows[i].key) == (set i | 0 <= i < |init| :: init[i].key) + {row.key};
      if f.bad.Some? then f
      else
        match Coerce(row)
        case None => Fill(f.data, Some(row.value))
        case Some(v) => Fill(f.data[row.key := v], None)
  }

  /** Reference reading: the last row carrying key `k`. */
  function Latest(rows: seq<Row>, k: string): (r: Option<Row>)
    ensures r.Some? ==> r.value in rows && r.value.key == k
    ensures r.None? ==> forall i :: 0 <= i < |rows| ==> rows[i].key != k
  {
    if rows == [] then None
    else if rows[|rows| - 1].key == k then Some(rows[|rows| - 1])
    else Latest(rows[..|rows| - 1], k)
  }

  /** When every conversion succeeds, looking `k` up in the built map gives the
      coerced value of the last row with key `k`, and nothing for a key that
      no row carries. */
  lemma {:induction false} CollectIsLatest(rows: seq<Row>, k: string)
    requires Collect(rows).bad.None?
    ensures Get(Collect(rows).data, k) == (match Latest(rows, k) case None => None case Some(r) => Coerce(r))
  {
    if rows != [] {
      var init := rows[..|rows| - 1];
      assert Collect(init).bad.None? by {
        assert forall i :: 0 <= i < |init| ==> init[i] == rows[i];
      }
      CollectIsLatest(init, k);
    }
  }

  /** When a conversion fails, the error names the first row that cannot be
      converted and the map holds exactly what the rows before it gave. */
  lemma {:induction false} CollectStopsAtFirstBadRow(rows: seq<Row>)
    requires Collect(rows).bad.Some?
    ensures exists i ::
              && 0 <= i < |rows| && Coerce(rows[i]).None?
              && Collect(rows).bad == Some(rows[i].value)
              && Collect(rows[..i]).bad.None?
              && Collect(rows).data == Collect(rows[..i]).data
  {
    var init := rows[..|rows| - 1];
    var f := Collect(init);
    if f.bad.Some? {
      CollectStopsAtFirstBadRow(init);
      var i :| 0 <= i < |init| && Coerce(init[i]).None? && f.bad == Some(init[i].value)
        && Collect(init[..i]).bad.None? && f.data == Collect(init[..i]).data;
      assert init[..i] == rows[..i];
    } else {
      assert rows[..|rows| - 1] == init;
    }
  }

  /** Index of the first row whose conversion fails, or `|rows|` if none does. */
  function FirstBad(rows: seq<Row>): (n: nat)
    ensures n <= |rows|
    ensures forall j :: 0 <= j < n ==> Coerce(rows[j]).Some?
    ensures n < |rows| ==> Coerce(rows[n]).None?
  {
    if rows == [] || Coerce(rows[0]).None? then 0 else 1 + FirstBad(rows[1..])
  }

  /** Reference reading of key `k` over `rows`: the coerced value of the last
      row carrying `k`, or nothing. */
  function Reading(rows: seq<Row>, k: string): Option<LastlogValue> {
    match Latest(rows, k)
    case None => None
    case Some(r) => Coerce(r)
  }

  /** Whether or not a conversion fails, the built map is the one that the
      rows before the first unconvertible row give, all of which convert. */
  lemma CollectUpToFirstBad(rows: seq<Row>)
    ensures Collect(rows[..FirstBad(rows)]).bad.None?
    ensures Collect(rows).data == Collect(rows[..FirstBad(rows)]).data
    ensures Collect(rows).bad.None? <==> FirstBad(rows) == |rows|
    ensures FirstBad(rows) < |rows| ==> Collect(rows).bad == Some(rows[FirstBad(rows)].value)
  {
    var n := FirstBad(rows);
    if Collect(rows).bad.None? {
      assert rows[..|rows|] == rows;
    } else {
      CollectStopsAtFirstBadRow(rows);
      var i :| && 0 <= i < |rows| && Coerce(rows[i]).None?
               && Collect(rows).bad == Some(rows[i].value)
               && Collect(rows[..i]).bad.None?
               && Collect(rows).data == Collect(rows[..i]).data;
      forall j | 0 <= j < i
        ensures Coerce(rows[j]).Some?
      {
        assert rows[..i][j] == rows[j];
      }
      assert i == n;
    }
  }

  // ---- The cached accessor ---------------------------------------------------

  /** `User._get_lastlog(key)`. With an empty cache it builds the map from
      `fetched` (the rows the query returns now) and caches it, even when a
      conversion fails midway; with a filled cache `fetched` is not looked at. */
  function GetLastlog(u: User, fetched: seq<Row>, key: string): (r: Lookup)
    ensures r.user.lastlogData.Some? && r.user == u.(lastlogData := r.user.lastlogData)
    ensures u.lastlogData.Some? ==> r.user == u && r.result == Success(Get(u.lastlogData.value, key))
    ensures r.result.Failure? <==> u.lastlogData.None? && exists i :: 0 <= i < |fetched| && Coerce(fetched[i]).None?
    ensures r.result.Success? ==> r.result.value == Get(r.user.lastlogData.value, key)
    ensures u.lastlogData.None? ==> r.user.lastlogData == Some(Collect(fetched).data)
  {
    if u.lastlogData.Some? then Lookup(u, Success(Get(u.lastlogData.value, key)))
    else
      var f := Collect(fetched);
      var u' := u.(lastlogData := Some(f.data));
      if f.bad.Some? then Lookup(u', Failure(ConversionError(f.bad.value)))
      else Lookup(u', Success(Get(f.data, key)))
  }

  /** Memoisation: once a call has filled the cache, later calls neither
      refetch nor change the instance, and a repeated key gives the same
      answer as the first successful call, whatever the table holds by then. */
  lemma CacheIsStable(u: User, first: seq<Row>, later: seq<Row>, k1: string, k2: string)
    ensures var r1 := GetLastlog(u, first, k1);
      var r2 := GetLastlog(r1.user, later, k2);
      && r2.user == r1.user
      && r2.result == Success(Get(r1.user.lastlogData.value, k2))
      && (r1.result.Success? && k1 == k2 ==> r2.result == r1.result)
  {
  }

  /** A first read over well-typed rows answers from the latest row with that
      key: `int(value)` for a `number` row, the raw text otherwise, and nothing
      when no row has the key. */
  lemma FirstReadIsLatest(u: User, fetched: seq<Row>, key: string)
    requires u.lastlogData.None?
    requires forall i :: 0 <= i < |fetched| ==> Coerce(fetched[i]).Some?
    ensures GetLastlog(u, fetched, key).result
         == Success(match Latest(fetched, key) case None => None case Some(r) => Coerce(r))
  {
    CollectIsLatest(fetched, key);
  }

  /** A first call answers the latest row for its key when every fetched row
      converts, and otherwise raises on the first row that does not. */
  lemma FirstReadOutcome(u: User, fetched: seq<Row>, key: string)
    requires u.lastlogData.None?
    ensures FirstBad(fetched) == |fetched| ==> GetLastlog(u, fetched, key).result == Success(Reading(fetched, key))
    ensures FirstBad(fetched) < |fetched| ==>
      GetLastlog(u, fetched, key).result == Failure(ConversionError(fetched[FirstBad(fetched)].value))
  {
    CollectUpToFirstBad(fetched);
    if FirstBad(fetched) == |fetched| {
      CollectIsLatest(fetched, key);
    }
  }

  /** What an instance's first call fetches decides every later answer on
      that instance: any later call, with any key and whatever the table holds
      by then, answers the latest row for its key among the rows before the
      first unconvertible one (all of them when every row converts). */
  lemma LaterReadsUseFirstFetch(u: User, first: seq<Row>, later: seq<Row>, k1: string, k2: string)
    requires u.lastlogData.None?
    ensures var r1 := GetLastlog(u, first, k1);
      GetLastlog(r1.user, later, k2).result == Success(Reading(first[..FirstBad(first)], k2))
  {
    var r1 := GetLastlog(u, first, k1);
    assert r1.user.lastlogData == Some(Collect(first).data);
    CollectUpToFirstBad(first);
    CollectIsLatest(first[..FirstBad(first)], k2);
  }

  /** A `timestamp` row written through `save` reads back as an integer. */
  lemma TimestampReadsAsInteger(u: User, host: string, kind: string)
    requires u.lastlogData.None?
    ensures var row := Save(Row(host, u.username, "lastlog", "timestamp", kind, "1000"));
      GetLastlog(u, [row], "timestamp").result == Success(Some(IntValue(1000)))
  {
    var row := Save(Row(host, u.username, "lastlog", "timestamp", kind, "1000"));
    assert row.kind == "number";
    ParseShow(1000);
    assert ShowInt(1000) == "1000" by {
      assert NatDigits(1000) == NatDigits(100) + ['0'];
      assert NatDigits(100) == NatDigits(10) + ['0'];
      assert NatDigits(10) == NatDigits(1) + ['0'];
    }
    assert Coerce(row) == Some(IntValue(1000));
    assert Collect([row]).data == map["timestamp" := IntValue(1000)] by {
      assert [row][..0] == [];
    }
  }

  // ---- Names -----------------------------------------------------------------

  /** How `'{}'.format` shows a possibly missing name. */
  function Shown(name: Option<string>): string {
    match name
    case None => "None"
    case Some(s) => s
  }

  // ---- The identity with two cases -------------------------------------------

  /** `User` (signed in) or `AnonymousUser`. */
  datatype Identity = Member(user: User) | Anonymous

  function IsAuthenticated(id: Identity): bool {
    id.Member?
  }

  function IsAnonymous(id: Identity): bool {
    id.Anonymous?
  }

  /** A signed-in user is authenticated and not anonymous; an anonymous one
      is the reverse. */
  lemma AuthenticatedXorAnonymous(id: Identity)
    ensures IsAuthenticated(id) <==> id.Member?
    ensures IsAnonymous(id) <==> !IsAuthenticated(id)
  {
  }

  function Username(id: Identity): (name: string)
    ensures id.Anonymous? ==> name == ""
  {
    match id
    case Member(u) => u.username
    case Anonymous => ""
  }

  /** `__str__`. */
  function Describe(id: Identity): (s: string)
    ensures id.Member? ==> s == id.user.username
    ensures id.Anonymous? ==> s == "Anonymous User"
  {
    match id
    case Member(u) => u.username
    case Anonymous => "Anonymous User"
  }

  /** `full_name`: first and last name joined by a space, a missing one shown
      as `None`, surrounding whitespace removed. */
  function FullName(id: Identity): (name: string)
    ensures Bare(name)
    ensures id.Anonymous? ==> name == "Anonymous User"
    ensures id.Member? ==>
      var joined := Shown(id.user.firstName) + " " + Shown(id.user.lastName);
      PaddedAt(joined, name, |joined| - |StripLeft(joined)|)
  {
    match id
    case Member(u) => Strip(Shown(u.firstName) + " " + Shown(u.lastName))
    case Anonymous => "Anonymous User"
  }

  /** With two non-empty bare names the full name is exactly "first last";
      with an empty last name it is the first name alone. */
  lemma FullNameOfBareNames(u: User, first: string, last: string)
    requires u.firstName == Some(first) && u.lastName == Some(last)
    requires first != [] && Bare(first) && Bare(last)
    ensures last != [] ==> FullName(Member(u)) == first + " " + last
    ensures last == [] ==> FullName(Member(u)) == first
  {
    if last != [] {
      StripBare(first + " " + last);
    } else {
      assert first + " " + last == first + " ";
      var s := first + " ";
      assert StripLeft(s) == s;
      assert StripRight(s) == StripRight(first);
    }
  }

  /** As written, a missing first name is shown as the text `None`. */
  lemma MissingFirstNameShowsNone(u: User)
    requires u.firstName.None? && u.lastName == Some("Smith")
    ensures FullName(Member(u)) == "None Smith"
  {
    StripBare("None Smith");
  }

  /** How a missing name was evidently meant to be shown: not at all. */
  function ShownOrEmpty(name: Option<string>): string {
    match name
    case None => ""
    case Some(s) => s
  }

  /** `full_name` with missing names left out instead of shown as `None`. */
  function IntendedFullName(id: Identity): (name: string)
    ensures Bare(name)
    ensures id.Anonymous? ==> name == "Anonymous User"
    ensures id.Member? ==>
      var joined := ShownOrEmpty(id.user.firstName) + " " + ShownOrEmpty(id.user.lastName);
      PaddedAt(joined, name, |joined| - |StripLeft(joined)|)
  {
    match id
    case Member(u) => Strip(ShownOrEmpty(u.firstName) + " " + ShownOrEmpty(u.lastName))
    case Anonymous => "Anonymous User"
  }

  /** The intended full name agrees with `full_name` when both names are
      present, and with one name missing it is the other name alone. */
  lemma IntendedFullNameSkipsMissing(u: User, name: string)
    requires name != [] && Bare(name)
    ensures u.firstName.Some? && u.lastName.Some? ==> IntendedFullName(Member(u)) == FullName(Member(u))
    ensures u.firstName.None? && u.lastName == Some(name) ==> IntendedFullName(Member(u)) == name
    ensures u.firstName == Some(name) && u.lastName.None? ==> IntendedFullName(Member(u)) == name
  {
    if u.firstName.None? && u.lastName == Some(name) {
      assert "" + " " + name == [' '] + name;
      StripLeadingSpace(name);
    }
    if u.firstName == Some(name) && u.lastName.None? {
      assert name + " " + "" == name + [' '];
      StripTrailingSpace(name);
    }
  }

  // ---- Presence --------------------------------------------------------------

  /** `xmpp_online`: true exactly when the lastlog `event` value is the text
      `login`; an anonymous user is never online. */
  function XmppOnline(id: Identity, fetched: seq<Row>): (r: (Identity, Result<bool, ConversionError>))
    ensures id.Anonymous? ==> r == (Anonymous, Success(false))
    ensures id.Member? ==>
      var look := GetLastlog(id.user, fetched, "event");
      && r.0 == Member(look.user)
      && (r.1.Failure? <==> look.result.Failure?)
      && (r.1.Success? ==> (r.1.value <==> look.result.value == Some(TextValue("login"))))
  {
    match id
    case Anonymous => (Anonymous, Success(false))
    case Member(u) =>
      var look := GetLastlog(u, fetched, "event");
      match look.result
      case Failure(e) => (Member(look.user), Failure(e))
      case Success(v) => (Member(look.user), Success(v == Some(TextValue("login"))))
  }

  /** `xmpp_last_ip`: the lastlog `ip` value; nothing for an anonymous user. */
  function XmppLastIp(id: Identity, fetched: seq<Row>): (r: (Identity, Result<Option<LastlogValue>, ConversionError>))
    ensures id.Anonymous? ==> r == (Anonymous, Success(None))
    ensures id.Member? ==> r.0.Member? && r.0.user.lastlogData.Some?
    ensures id.Member? ==>
      var look := GetLastlog(id.user, fetched, "ip");
      r == (Member(look.user), look.result)
  {
    match id
    case Anonymous => (Anonymous, Success(None))
    case Member(u) =>
      var look := GetLastlog(u, fetched, "ip");
      (Member(look.user), look.result)
  }

  /** On a user's first presence read, `xmpp_online` is true exactly when the
      latest `event` row is not typed `number` and holds the text `login`;
      it raises when some fetched row cannot be converted. */
  lemma OnlineMeansLatestEventIsLogin(u: User, fetched: seq<Row>)
    requires u.lastlogData.None?
    ensures FirstBad(fetched) == |fetched| ==>
      var latest := Latest(fetched, "event");
      XmppOnline(Member(u), fetched).1
        == Success(latest.Some? && latest.value.kind != "number" && latest.value.value == "login")
    ensures FirstBad(fetched) < |fetched| ==>
      XmppOnline(Member(u), fetched).1 == Failure(ConversionError(fetched[FirstBad(fetched)].value))
  {
    FirstReadOutcome(u, fetched, "event");
  }

  /** On a user's first presence read, `xmpp_last_ip` is the latest `ip` row's
      value, coerced like every lastlog value; it raises when some fetched row
      cannot be converted. */
  lemma LastIpIsLatestIpRow(u: User, fetched: seq<Row>)
    requires u.lastlogData.None?
    ensures FirstBad(fetched) == |fetched| ==> XmppLastIp(Member(u), fetched).1 == Success(Reading(fetched, "ip"))
    ensures FirstBad(fetched) < |fetched| ==>
      XmppLastIp(Member(u), fetched).1 == Failure(ConversionError(fetched[FirstBad(fetched)].value))
  {
    FirstReadOutcome(u, fetched, "ip");
  }
}
