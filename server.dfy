/** The server's registry of mocks and the routes that change or read it: the add and remove
    admin routes, the listing, the start-up reload of the backup, and the mock middleware. */
module Server {
  import opened Wrappers
  import opened Json
  import opened Mocks
  import opened Tables

  /** What the middleware does with a request: hand it on to the next handler, or reply. */
  datatype Outcome = PassOn | Send(reply: Reply)

  /** The immediate reply to a request that matches no mock. */
  const NotFound: Reply := Reply(404, map["error" := Str("Not Found")], 0)

  /** The root page and everything under `/_admin` are left to the other handlers. */
  predicate Bypassed(path: string)
    ensures Bypassed(path) <==> path == "/" || (|path| >= 7 && path[..7] == "/_admin")
  {
    path == "/" || "/_admin" <= path
  }

  /** The in-memory registry: a map from `METHOD:PATH` to the stored record, iterated in
      insertion order. */
  class Registry {
    var entries: map<string, Mock>
    var order: seq<string>

    function Current(): Table
      reads this
    {
      Table(entries, order)
    }

    ghost predicate Valid()
      reads this
    {
      ValidTable(Current())
    }

    constructor ()
      ensures Valid() && entries == map[] && order == []
    {
      entries := map[];
      order := [];
    }

    /** The start-up reload: store every record of the backup afresh, in order; a record
        whose CSV file does not parse or whose method is missing throws and stops it. */
    method Hydrate(snap: seq<Mock>, loader: string -> CsvLoad) returns (ok: bool)
      requires Valid()
      modifies this
      ensures Valid()
      ensures Current() == Restore(old(Current()), snap, loader).table
      ensures ok <==> Restore(old(Current()), snap, loader).Complete?
    {
      ok := true;
      var i := 0;
      while i < |snap|
        invariant 0 <= i <= |snap|
        invariant Valid()
        invariant Restore(Current(), snap[i..], loader) == Restore(old(Current()), snap, loader)
      {
        var c := snap[i].config;
        assert snap[i..][0] == snap[i] && snap[i..][1..] == snap[i + 1..];
        var csv := LoadRows(c.csvFile, loader);
        if csv.Err? || c.verb.None? {
          ok := false;
          return;
        }
        var m := Fresh(c, csv.value);
        PutValid(Current(), KeyOf(c), m);
        var t := Put(Current(), KeyOf(c), m);
        entries, order := t.entries, t.order;
        i := i + 1;
      }
      assert snap[i..] == [];
    }

    /** The add route: store the configuration afresh under its key, replacing any record
        there, then write the backup. A missing method or an unparsable CSV file throws before
        anything changes; a failed write is reported after the registry has changed. */
    method Add(config: Config, loader: string -> CsvLoad, writeOk: bool) returns (status: int, written: Option<seq<Mock>>)
      requires Valid()
      modifies this
      ensures Valid()
      ensures !Admissible(config, loader) ==>
        status == 500 && written == None && entries == old(entries) && order == old(order)
      ensures Admissible(config, loader) ==>
        && entries == old(entries)[KeyOf(config) := Stored(config, loader)]
        && order == (if KeyOf(config) in old(entries) then old(order) else old(order) + [KeyOf(config)])
        && entries[KeyOf(config)].currentIndex == 0
        && entries[KeyOf(config)].hits == 0
        && entries[KeyOf(config)].lastHit == None
        && status == (if writeOk then 201 else 500)
        && written == (if writeOk then Some(Snapshot(Current())) else None)
    {
      if config.verb.None? {
        return 500, None;
      }
      var key := KeyOf(config);
      var csv := LoadRows(config.csvFile, loader);
      if csv.Err? {
        return 500, None;
      }
      var m := Fresh(config, csv.value);
      PutValid(Current(), key, m);
      var t := Put(Current(), key, m);
      entries, order := t.entries, t.order;
      if writeOk {
        status, written := 201, Some(Snapshot(Current()));
      } else {
        status, written := 500, None;
      }
    }

    /** The remove route: delete the key if it is there, then write the backup. */
    method Remove(key: string, writeOk: bool) returns (status: int, written: Option<seq<Mock>>)
      requires Valid()
      modifies this
      ensures Valid()
      ensures key !in entries
      ensures entries == old(entries) - {key}
      ensures order == Without(old(order), key)
      ensures key !in old(entries) ==> entries == old(entries) && order == old(order)
      ensures forall k :: k in old(entries) && k != key ==> k in entries && entries[k] == old(entries)[k]
      ensures status == (if writeOk then 200 else 500)
      ensures written == (if writeOk then Some(Snapshot(Current())) else None)
    {
      var t := Drop(Current(), key);
      DropValid(Current(), key);
      entries, order := t.entries, t.order;
      if writeOk {
        status, written := 200, Some(Snapshot(Current()));
      } else {
        status, written := 500, None;
      }
    }

    /** The list route and the backup writer: the stored records in insertion order. */
    method List() returns (snap: seq<Mock>)
      requires Valid()
      ensures snap == Snapshot(Current())
      ensures forall i :: 0 <= i < |snap| ==> snap[i] == entries[order[i]]
    {
      snap := Snapshot(Current());
    }

    /** The mock middleware for a request with the given method and path, at clock reading
        `now` and with the drawn jitter. */
    method Dispatch(verb: string, path: string, now: string, jitter: int) returns (out: Outcome)
      requires Valid()
      modifies this
      ensures Valid() && order == old(order)
      ensures Bypassed(path) ==> out == PassOn && entries == old(entries)
      ensures !Bypassed(path) && Key(verb, path) !in old(entries) ==>
        out == Send(NotFound) && entries == old(entries)
      ensures !Bypassed(path) && Key(verb, path) in old(entries) ==>
        var m := old(entries)[Key(verb, path)];
        && out == Send(ReplyFor(m, jitter))
        && entries == old(entries)[Key(verb, path) := Advance(m, now)]
    {
      if Bypassed(path) {
        return PassOn;
      }
      var key := Key(verb, path);
      if key !in entries {
        return Send(NotFound);
      }
      AdvanceValid(Current(), key, now);
      var next, reply := Hit(entries[key], now, jitter);
      entries := entries[key := next];
      out := Send(reply);
    }
  }

  /** The `GET /users` mock with two CSV rows. */
  function UsersConfig(): Config
  {
    Config(Some("GET"), Some("/users"), map["source" := Str("static")], Some(200), None, None, Some("data/users.csv"))
  }

  function UsersLoader(): string -> CsvLoad
  {
    (f: string) => if f == "data/users.csv" then Parsed([map["id" := "1"], map["id" := "2"]]) else Missing
  }

  /** The template with the `id` column of a users row. */
  function UsersBody(id: string): Object
  {
    map["source" := Str("static"), "id" := Str(id)]
  }

  /** The `GET /users` configuration is stored under `GET:/users` with both rows, counters
      at zero. */
  lemma UsersStored()
    ensures Admissible(UsersConfig(), UsersLoader())
    ensures KeyOf(UsersConfig()) == "GET:/users" == Key("GET", "/users") && !Bypassed("/users")
    ensures Stored(UsersConfig(), UsersLoader())
         == Mock(UsersConfig(), Some([map["id" := "1"], map["id" := "2"]]), 0, 0, None)
  {
    assert LoadRows(UsersConfig().csvFile, UsersLoader()) == Ok(Some([map["id" := "1"], map["id" := "2"]]));
    assert Upper("GET") == "GET";
  }

  /** Three consecutive requests to the `GET /users` mock, at any clock readings, get the
      first row, the second row and the first row again, each spread over the template. */
  lemma UsersRoundRobin(times: seq<string>)
    requires |times| == 3
    ensures Admissible(UsersConfig(), UsersLoader())
    ensures Bodies(Stored(UsersConfig(), UsersLoader()), times) == [UsersBody("1"), UsersBody("2"), UsersBody("1")]
  {
    var row1: Row := map["id" := "1"];
    var row2: Row := map["id" := "2"];
    var template: Object := map["source" := Str("static")];
    UsersStored();
    var m := Stored(UsersConfig(), UsersLoader());
    assert Rows(m) == [row1, row2] && m.config.responseBody == template;
    var b := Bodies(m, times);
    OverlayOneColumn(template, "id", "1");
    OverlayOneColumn(template, "id", "2");
    assert template["id" := Str("1")] == UsersBody("1");
    assert template["id" := Str("2")] == UsersBody("2");
    BodiesInOrder(m, times, 0);
    ModUnique(0, 2, 0, 0);
    assert b[0] == UsersBody("1");
    BodiesInOrder(m, times, 1);
    ModUnique(1, 2, 0, 1);
    assert b[1] == UsersBody("2");
    BodiesInOrder(m, times, 2);
    ModUnique(2, 2, 1, 0);
    assert b[2] == UsersBody("1");
  }

  /** Register `GET /users` and dispatch to it: the first row comes back spread over the
      template and the hit is counted. */
  method UsersScenario()
  {
    var config := UsersConfig();
    var times := ["10:00:00", "10:00:01", "10:00:02"];
    UsersStored();
    UsersRoundRobin(times);
    var m0 := Stored(config, UsersLoader());
    assert Body(m0) == UsersBody("1") by {
      assert times[..0] == [];
      assert Bodies(m0, times)[0] == Body(m0);
    }
    assert ReplyFor(m0, 0) == Reply(200, UsersBody("1"), 0);
    var registry := new Registry();
    var status, _ := registry.Add(config, UsersLoader(), true);
    assert status == 201;
    assert registry.entries["GET:/users"] == m0;
    var first := registry.Dispatch("GET", "/users", "10:00:00", 0);
    assert first == Send(Reply(200, UsersBody("1"), 0));
    assert registry.entries["GET:/users"].hits == 1;
  }

  /** The lookup is byte-exact: after registering `GET /users`, a request with method
      `get` is not found and changes nothing. */
  method LowerCaseScenario()
  {
    UsersStored();
    var registry := new Registry();
    var status, _ := registry.Add(UsersConfig(), UsersLoader(), true);
    assert registry.entries.Keys == {"GET:/users"};
    assert Key("get", "/users") !in registry.entries by {
      assert Key("get", "/users")[0] == 'g';
    }
    var before := registry.entries;
    var miss := registry.Dispatch("get", "/users", "10:00:03", 0);
    assert miss == Send(NotFound) && registry.entries == before;
  }
}
