/** One mock definition: its configuration, its CSV rows and its runtime counters, and the
    pure rules the server applies to it (key, cursor step, reply body, status, delay). */
module Mocks {
  import opened Wrappers
  import opened Json

  /** The configuration posted to the add route, kept as given. */
  datatype Config = Config(
    verb: Option<string>,      // the `method` field; absent: upper-casing it throws
    path: Option<string>,      // absent: the key reads "undefined"
    responseBody: Object,      // absent: the spread yields {}
    statusCode: Option<int>,
    avgDelay: Option<int>,
    deviation: Option<int>,
    csvFile: Option<string>)

  /** A registered mock: the configuration spread into a record together with the loaded
      rows (`csvData`, null when there is no file) and the counters. */
  datatype Mock = Mock(
    config: Config,
    csvData: Option<seq<Row>>,
    currentIndex: nat,
    hits: nat,
    lastHit: Option<string>)

  /** What reading and parsing a CSV file yields: no such file, rows, or a parse error. */
  datatype CsvLoad = Missing | Parsed(rows: seq<Row>) | Malformed

  /** The reply the dispatcher schedules: status, JSON body and the delay in milliseconds. */
  datatype Reply = Reply(status: int, body: Object, delay: nat)

  // ---------------------------------------------------------------------------------
  // Keys

  /** ASCII upper-casing of one character. */
  function UpperChar(c: char): char
  {
    if 'a' <= c <= 'z' then (c as int - 32) as char else c
  }

  predicate IsLower(c: char)
  {
    'a' <= c <= 'z'
  }

  /** `toUpperCase` restricted to ASCII letters. */
  function Upper(s: string): (r: string)
    ensures |r| == |s|
    ensures forall i :: 0 <= i < |s| ==> r[i] == UpperChar(s[i])
  {
    if s == [] then [] else [UpperChar(s[0])] + Upper(s[1..])
  }

  /** Upper-casing leaves no lower-case letter and keeps every colon where it was. */
  lemma UpperNoLower(s: string)
    ensures forall i :: 0 <= i < |s| ==> !IsLower(Upper(s)[i])
    ensures forall i :: 0 <= i < |s| ==> (Upper(s)[i] == ':' <==> s[i] == ':')
  {
  }

  /** The registry key `METHOD:PATH` as a template string builds it. */
  function Key(verb: string, path: string): string
  {
    verb + ":" + path
  }

  /** A key is the verb, one colon, and the path. */
  lemma KeyParts(verb: string, path: string)
    ensures |Key(verb, path)| == |verb| + 1 + |path|
    ensures Key(verb, path)[..|verb|] == verb
    ensures Key(verb, path)[|verb|] == ':'
    ensures Key(verb, path)[|verb| + 1..] == path
  {
  }

  /** `${config.path}`: an absent path is interpolated as the text "undefined". */
  function PathText(path: Option<string>): string
  {
    if path.Some? then path.value else "undefined"
  }

  /** The key under which the add route and the loader store a configuration. */
  function KeyOf(c: Config): (k: string)
    requires c.verb.Some?
    ensures |k| == |c.verb.value| + 1 + |PathText(c.path)|
    ensures k[..|c.verb.value|] == Upper(c.verb.value) && k[|c.verb.value|] == ':'
    ensures k[|c.verb.value| + 1..] == PathText(c.path)
  {
    Key(Upper(c.verb.value), PathText(c.path))
  }

  /** A key splits back into its verb and path when neither verb contains a colon. */
  lemma {:induction false} KeyInjective(a: string, p: string, b: string, q: string)
    requires ':' !in a && ':' !in b
    requires Key(a, p) == Key(b, q)
    ensures a == b && p == q
  {
    KeyParts(a, p);
    KeyParts(b, q);
    // were one verb shorter, the colon after it would fall inside the other
    if |a| < |b| {
      assert false;
    } else if |b| < |a| {
      assert false;
    }
  }

  /** The dispatcher does not upper-case: a request whose verb has a lower-case letter never
      reaches a definition stored by the add route. */
  lemma LowerCaseVerbMisses(verb: string, path: string, c: Config, i: nat)
    requires c.verb.Some? && ':' !in verb
    requires i < |verb| && IsLower(verb[i])
    ensures Key(verb, path) != KeyOf(c)
  {
    var u := Upper(c.verb.value);
    UpperNoLower(c.verb.value);
    if Key(verb, path) == KeyOf(c) {
      KeyParts(verb, path);
      KeyParts(u, PathText(c.path));
      // either the colon after `u` falls inside the request verb, or the request verb is
      // a prefix of `u`, which has no lower-case letter
      assert false;
    }
  }

  // ---------------------------------------------------------------------------------
  // Loading rows

  /** JavaScript truthiness of an optional file reference: present and non-empty. */
  predicate Truthy(f: Option<string>)
  {
    f.Some? && f.value != ""
  }

  /** The rows a configuration gets: null without a file reference or when the file does
      not exist, the parsed rows otherwise, and a failure when parsing throws. */
  function LoadRows(csvFile: Option<string>, loader: string -> CsvLoad): (r: Result<Option<seq<Row>>>)
    ensures r.Err? <==> Truthy(csvFile) && loader(csvFile.value).Malformed?
    ensures r == Ok(None) <==> !Truthy(csvFile) || loader(csvFile.value).Missing?
    ensures r.Ok? && r.value.Some? ==> Truthy(csvFile) && loader(csvFile.value) == Parsed(r.value.value)
  {
    if !Truthy(csvFile) then Ok(None)
    else match loader(csvFile.value)
      case Missing => Ok(None)
      case Parsed(rows) => Ok(Some(rows))
      case Malformed => Err
  }

  /** A configuration the add route and the loader can store: its method can be upper-cased
      and its CSV file, if any, parses. */
  predicate Admissible(c: Config, loader: string -> CsvLoad)
  {
    c.verb.Some? && LoadRows(c.csvFile, loader).Ok?
  }

  /** The record stored for a configuration: counters at their initial values. */
  function Fresh(c: Config, csv: Option<seq<Row>>): (m: Mock)
    ensures CursorOk(m) && m.config == c && m.csvData == csv
    ensures m.currentIndex == 0 && m.hits == 0 && m.lastHit.None?
  {
    Mock(c, csv, 0, 0, None)
  }

  /** The record the add route and the loader store for an admissible configuration:
      `{ ...config, csvData, currentIndex: 0, hits: 0, lastHit: null }`. */
  function Stored(c: Config, loader: string -> CsvLoad): (m: Mock)
    requires Admissible(c, loader)
    ensures Initial(m, loader) && CursorOk(m) && m.config == c
  {
    Fresh(c, LoadRows(c.csvFile, loader).value)
  }

  /** A record as the loader leaves it, whatever the snapshot said about its counters. */
  ghost predicate Initial(m: Mock, loader: string -> CsvLoad)
  {
    LoadRows(m.config.csvFile, loader) == Ok(m.csvData)
    && m.currentIndex == 0 && m.hits == 0 && m.lastHit.None?
  }

  // ---------------------------------------------------------------------------------
  // Dispatching to one mock

  /** The rows the dispatcher cycles through: null rows behave as no rows. */
  function Rows(m: Mock): seq<Row>
  {
    if m.csvData.Some? then m.csvData.value else []
  }

  /** The cursor invariant: a valid index into non-empty rows, and 0 when there are none. */
  predicate CursorOk(m: Mock)
  {
    if |Rows(m)| > 0 then m.currentIndex < |Rows(m)| else m.currentIndex == 0
  }

  /** The row the next dispatch merges into the body. */
  function Selected(m: Mock): (r: Option<Row>)
    requires CursorOk(m)
    ensures r.Some? <==> |Rows(m)| > 0
    ensures r.Some? ==> r.value == Rows(m)[m.currentIndex]
  {
    if |Rows(m)| > 0 then Some(Rows(m)[m.currentIndex]) else None
  }

  /** The reply body: the template with the selected row spread over it. */
  function Body(m: Mock): (r: Object)
    requires CursorOk(m)
    ensures |Rows(m)| == 0 ==> r == m.config.responseBody
    ensures forall k :: k in r <==> k in m.config.responseBody || (|Rows(m)| > 0 && k in Rows(m)[m.currentIndex])
    ensures forall k :: |Rows(m)| > 0 && k in Rows(m)[m.currentIndex] ==> r[k] == Str(Rows(m)[m.currentIndex][k])
    ensures forall k :: k in m.config.responseBody && (|Rows(m)| == 0 || k !in Rows(m)[m.currentIndex]) ==>
      r[k] == m.config.responseBody[k]
  {
    match Selected(m)
    case Some(row) => Overlay(m.config.responseBody, row)
    case None => m.config.responseBody
  }

  /** The state change of one dispatch: one more hit, the hit time, and the cursor moved one
      row on, wrapping at the end; a mock without rows keeps its cursor. */
  function Advance(m: Mock, now: string): (r: Mock)
    requires CursorOk(m)
    ensures CursorOk(r)
    ensures r.config == m.config && r.csvData == m.csvData
    ensures r.hits == m.hits + 1 && r.lastHit == Some(now)
    ensures |Rows(m)| > 0 ==> r.currentIndex == (m.currentIndex + 1) % |Rows(m)|
    ensures |Rows(m)| == 0 ==> r.currentIndex == m.currentIndex
  {
    var next := if |Rows(m)| > 0 then (m.currentIndex + 1) % |Rows(m)| else m.currentIndex;
    m.(hits := m.hits + 1, lastHit := Some(now), currentIndex := next)
  }

  /** `statusCode || 200`: an absent or zero status code is replaced by 200. */
  function Status(code: Option<int>): (s: int)
    ensures s != 0
    ensures code.Some? && code.value != 0 ==> s == code.value
    ensures s != 200 ==> code == Some(s)
  {
    if code.Some? && code.value != 0 then code.value else 200
  }

  /** `x || 0` on an optional number. */
  function OrZero(x: Option<int>): int
  {
    if x.Some? then x.value else 0
  }

  function Abs(x: int): nat
  {
    if x < 0 then -x else x
  }

  /** A jitter the random draw can produce: it stands for `r * (deviation || 0)` with `r`
      in [-1, 1], so its size is at most that of the deviation. */
  predicate JitterWithin(deviation: Option<int>, jitter: int)
  {
    Abs(jitter) <= Abs(OrZero(deviation))
  }

  /** `Math.max(0, (avgDelay || 0) + jitter)`. */
  function Delay(avgDelay: Option<int>, jitter: int): (d: nat)
    ensures d >= OrZero(avgDelay) + jitter
    ensures d > 0 ==> d == OrZero(avgDelay) + jitter
  {
    if OrZero(avgDelay) + jitter < 0 then 0 else OrZero(avgDelay) + jitter
  }

  /** For a jitter the draw can produce, the delay lies within one deviation of the average
      delay (and never below zero). */
  lemma DelayBounds(avgDelay: Option<int>, deviation: Option<int>, jitter: int)
    requires JitterWithin(deviation, jitter)
    ensures OrZero(avgDelay) - Abs(OrZero(deviation)) <= Delay(avgDelay, jitter)
    ensures Delay(avgDelay, jitter) <= if OrZero(avgDelay) + Abs(OrZero(deviation)) < 0 then 0
                                       else OrZero(avgDelay) + Abs(OrZero(deviation))
    ensures 0 <= OrZero(avgDelay) && 0 <= OrZero(deviation) ==>
      Delay(avgDelay, jitter) <= OrZero(avgDelay) + OrZero(deviation)
  {
  }

  /** The reply one dispatch schedules for a mock, computed before its cursor moves. */
  function ReplyFor(m: Mock, jitter: int): (r: Reply)
    requires CursorOk(m)
    ensures r.status != 0
    ensures r.delay > 0 ==> r.delay == OrZero(m.config.avgDelay) + jitter
    ensures Selected(m).None? ==> r.body == m.config.responseBody
    ensures Selected(m).Some? ==> r.body == Overlay(m.config.responseBody, Selected(m).value)
  {
    Reply(Status(m.config.statusCode), Body(m), Delay(m.config.avgDelay, jitter))
  }

  /** One request served by the middleware, in the order it does things: count the hit and
      stamp it, spread the row at the cursor over a copy of the template and move the cursor
      on, then compute the delay and the status. */
  method Hit(m: Mock, now: string, jitter: int) returns (next: Mock, reply: Reply)
    requires CursorOk(m)
    ensures next == Advance(m, now)
    ensures reply == ReplyFor(m, jitter)
  {
    next := m.(hits := m.hits + 1, lastHit := Some(now));
    var body := next.config.responseBody;
    var rows := Rows(next);
    assert rows == Rows(m);
    if |rows| > 0 {
      var row := rows[next.currentIndex];
      assert Selected(m) == Some(row);
      body := Overlay(body, row);
      next := next.(currentIndex := (next.currentIndex + 1) % |rows|);
    } else {
      assert Selected(m) == None;
    }
    var delay := Delay(next.config.avgDelay, jitter);
    reply := Reply(Status(next.config.statusCode), body, delay);
  }

  // ---------------------------------------------------------------------------------
  // Consecutive dispatches

  /** The mock after one dispatch at each clock reading of `times`, in order: each request
      sees the record the previous one left, as successive calls of the middleware do. */
  function Iterate(m: Mock, times: seq<string>): (r: Mock)
    requires CursorOk(m)
    ensures CursorOk(r)
    ensures r.config == m.config && r.csvData == m.csvData
    decreases |times|
  {
    if times == [] then m else Iterate(Advance(m, times[0]), times[1..])
  }

  /** After requests at `times`, the last hit is stamped with the last clock reading. */
  lemma {:induction false} IterateLastHit(m: Mock, times: seq<string>)
    requires CursorOk(m) && |times| > 0
    ensures Iterate(m, times).lastHit == Some(times[|times| - 1])
    decreases |times|
  {
    var a := Advance(m, times[0]);
    assert Iterate(m, times) == Iterate(a, times[1..]);
    if |times| > 1 {
      IterateLastHit(a, times[1..]);
      assert times[1..][|times| - 2] == times[|times| - 1];
    }
  }

  /** The bodies of the dispatches at `times`: the `i`-th request is answered from the record
      the first `i` requests left. */
  function Bodies(m: Mock, times: seq<string>): (r: seq<Object>)
    requires CursorOk(m)
    ensures |r| == |times|
  {
    seq(|times|, i requires 0 <= i < |times| => Body(Iterate(m, times[..i])))
  }

  /** One more request at `t` is one more dispatch step on the record the earlier ones left. */
  lemma {:induction false} IterateStep(m: Mock, times: seq<string>, t: string)
    requires CursorOk(m)
    ensures Iterate(m, times + [t]) == Advance(Iterate(m, times), t)
    decreases |times|
  {
    if times == [] {
      assert Iterate(m, [t]) == Iterate(Advance(m, t), []);
    } else {
      var a := Advance(m, times[0]);
      assert (times + [t])[0] == times[0];
      assert (times + [t])[1..] == times[1..] + [t];
      IterateStep(a, times[1..], t);
    }
  }

  lemma MulAtLeast(d: int, n: int)
    requires d >= 1 && n > 0
    ensures d * n >= n
  {
    assert d * n == (d - 1) * n + n;
  }

  /** The remainder is determined by any decomposition `x == q * n + r` with `0 <= r < n`. */
  lemma ModUnique(x: int, n: int, q: int, r: int)
    requires n > 0 && 0 <= r < n && x == q * n + r
    ensures x % n == r
  {
    var q0, r0 := x / n, x % n;
    assert x == q0 * n + r0;
    assert (q - q0) * n == r0 - r;
    if q > q0 {
      MulAtLeast(q - q0, n);
    } else if q < q0 {
      MulAtLeast(q0 - q, n);
    }
  }

  /** Adding to a remainder and reducing again is adding first and reducing once. */
  lemma ModAddLeft(x: nat, j: nat, n: nat)
    requires n > 0
    ensures ((x % n) + j) % n == (x + j) % n
  {
    var q, r := x / n, x % n;
    assert x == q * n + r;
    var q1, r1 := (r + j) / n, (r + j) % n;
    assert r + j == q1 * n + r1;
    assert x + j == (q + q1) * n + r1;
    ModUnique(x + j, n, q + q1, r1);
  }

  /** After `k` dispatches the cursor has moved `k` rows on modulo the row count, and the
      hit counter has grown by exactly `k`, whatever the clock readings. */
  lemma {:induction false} IterateCounters(m: Mock, times: seq<string>)
    requires CursorOk(m)
    ensures Iterate(m, times).hits == m.hits + |times|
    ensures |Rows(m)| > 0 ==> Iterate(m, times).currentIndex == (m.currentIndex + |times|) % |Rows(m)|
    ensures |Rows(m)| == 0 ==> Iterate(m, times).currentIndex == m.currentIndex
    decreases |times|
  {
    if times != [] {
      var k := |times|;
      var a := Advance(m, times[0]);
      assert Iterate(m, times) == Iterate(a, times[1..]);
      assert Rows(a) == Rows(m);
      IterateCounters(a, times[1..]);
      var n := |Rows(m)|;
      if n > 0 {
        var c := m.currentIndex;
        assert a.currentIndex == (c + 1) % n;
        ModAddLeft(c + 1, k - 1, n);
        assert (a.currentIndex + (k - 1)) % n == (c + 1 + (k - 1)) % n;
        assert c + 1 + (k - 1) == c + k;
      }
    }
  }

  /** `n` dispatches to a mock with `n` rows bring the cursor back to where it was. */
  lemma CycleRestoresCursor(m: Mock, times: seq<string>)
    requires CursorOk(m) && |times| == |Rows(m)| > 0
    ensures Iterate(m, times).currentIndex == m.currentIndex
    ensures Iterate(m, times).hits == m.hits + |Rows(m)|
  {
    IterateCounters(m, times);
    ModUnique(m.currentIndex + |Rows(m)|, |Rows(m)|, 1, m.currentIndex);
  }

  /** The `i`-th of consecutive dispatches merges the row `i` places after the cursor,
      wrapping around; without rows every body is the template. */
  lemma BodiesInOrder(m: Mock, times: seq<string>, i: nat)
    requires CursorOk(m) && i < |times|
    ensures |Rows(m)| > 0 ==>
      Bodies(m, times)[i] == Overlay(m.config.responseBody, Rows(m)[(m.currentIndex + i) % |Rows(m)|])
    ensures |Rows(m)| == 0 ==> Bodies(m, times)[i] == m.config.responseBody
  {
    var earlier := times[..i];
    IterateCounters(m, earlier);
    var it := Iterate(m, earlier);
    assert Bodies(m, times)[i] == Body(it);
    assert Rows(it) == Rows(m) && it.config == m.config;
    if |Rows(m)| > 0 {
      assert Selected(it) == Some(Rows(m)[(m.currentIndex + i) % |Rows(m)|]);
    } else {
      assert Selected(it) == None;
    }
  }

  /** Two offsets within one round land on different positions. */
  lemma ModDistinct(c: nat, n: nat, i: nat, j: nat)
    requires c < n && i < j < n
    ensures (c + i) % n != (c + j) % n
  {
    var x, y := c + i, c + j;
    var rx := if x < n then x else x - n;
    var ry := if y < n then y else y - n;
    ModUnique(x, n, if x < n then 0 else 1, rx);
    ModUnique(y, n, if y < n then 0 else 1, ry);
  }

  /** Within one full round, an earlier and a later request are served from different rows,
      whatever the clock readings: the cursors they find differ. */
  lemma CyclePositionsDistinct(m: Mock, first: seq<string>, second: seq<string>)
    requires CursorOk(m) && |first| < |second| < |Rows(m)|
    ensures Iterate(m, first).currentIndex != Iterate(m, second).currentIndex
  {
    var n, c, f, g := |Rows(m)|, m.currentIndex, |first|, |second|;
    assert (c + f) % n != (c + g) % n by {
      ModDistinct(c, n, f, g);
    }
    assert Iterate(m, first).currentIndex == (c + f) % n by {
      IterateCounters(m, first);
    }
    assert Iterate(m, second).currentIndex == (c + g) % n by {
      IterateCounters(m, second);
    }
  }

  /** Starting from the first row, the first round of dispatches serves the rows in order. */
  lemma FirstRoundInOrder(m: Mock, times: seq<string>, i: nat)
    requires CursorOk(m) && m.currentIndex == 0 && i < |times| <= |Rows(m)|
    ensures Bodies(m, times)[i] == Overlay(m.config.responseBody, Rows(m)[i])
  {
    var k := (m.currentIndex + i) % |Rows(m)|;
    assert k == i by {
      ModUnique(m.currentIndex + i, |Rows(m)|, 0, i);
    }
    BodiesInOrder(m, times, i);
    assert Rows(m)[k] == Rows(m)[i];
  }

  /** A freshly stored mock with rows serves them in file order, one per dispatch, and after
      a full round its cursor is back at the first row. */
  lemma FreshCycle(c: Config, rows: seq<Row>, times: seq<string>, i: nat)
    requires |rows| > 0 && |times| == |rows| && i < |rows|
    ensures Bodies(Fresh(c, Some(rows)), times)[i] == Overlay(c.responseBody, rows[i])
    ensures Iterate(Fresh(c, Some(rows)), times).currentIndex == 0
  {
    var m := Fresh(c, Some(rows));
    assert Rows(m) == rows && m.currentIndex == 0 && m.config == c;
    FirstRoundInOrder(m, times, i);
    CycleRestoresCursor(m, times);
  }
}
