/**
 * `write_to_csv`: the parsed events of one day become a table whose header
 * is `event` followed by every property name in the order first seen, and
 * whose rows give, per event, its name and its value for each column.
 */
module Tabular {
  import opened Text

  datatype Option<T> = None | Some(value: T)

  /** A property value of a parsed event. */
  datatype Value = Str(s: string) | Int(n: int) | Bool(b: bool) | Null

  /** One parsed event: its `event` name and its `properties` object, whose
      keys keep the order they had in the response. */
  datatype Event = Event(name: string, props: seq<(string, Value)>)

  /** Ruby's `to_s` of a value; `null` parses to `nil`, whose text is empty. */
  function Show(v: Value): string
  {
    match v
    case Str(s) => s
    case Int(n) => Decimal(n)
    case Bool(b) => if b then "true" else "false"
    case Null => ""
  }

  /** The property names of an event, in order. */
  function Keys(e: Event): (r: seq<string>)
    ensures |r| == |e.props| && forall i :: 0 <= i < |r| ==> r[i] == e.props[i].0
  {
    seq(|e.props|, i requires 0 <= i < |e.props| => e.props[i].0)
  }

  /** A properties object never repeats a name. */
  predicate DistinctKeys(e: Event)
  {
    forall i, j :: 0 <= i < j < |e.props| ==> e.props[i].0 != e.props[j].0
  }

  /** `properties[k]`: the value stored under `k`, if any. */
  function Lookup(props: seq<(string, Value)>, k: string): (r: Option<Value>)
    ensures r.None? <==> forall i :: 0 <= i < |props| ==> props[i].0 != k
    ensures r.Some? ==> (k, r.value) in props
    decreases |props|
  {
    if props == [] then None
    else if props[0].0 == k then Some(props[0].1)
    else Lookup(props[1..], k)
  }

  lemma {:induction false} LookupDistinct(e: Event, i: nat)
    requires DistinctKeys(e) && i < |e.props|
    ensures Lookup(e.props, e.props[i].0) == Some(e.props[i].1)
    decreases i
  {
    if i > 0 {
      var e' := Event(e.name, e.props[1..]);
      assert e'.props[i - 1] == e.props[i];
      LookupDistinct(e', i - 1);
    }
  }

  /** `hash_data.map { |row| row["properties"].keys }.flatten`. */
  function AllKeys(events: seq<Event>): (r: seq<string>)
    decreases |events|
  {
    if events == [] then [] else Keys(events[0]) + AllKeys(events[1..])
  }

  lemma {:induction false} AllKeysMembers(events: seq<Event>, k: string)
    ensures k in AllKeys(events) <==> exists i :: 0 <= i < |events| && k in Keys(events[i])
    decreases |events|
  {
    if events != [] {
      AllKeysMembers(events[1..], k);
      if k in AllKeys(events[1..]) {
        var i :| 0 <= i < |events| - 1 && k in Keys(events[1..][i]);
        assert k in Keys(events[i + 1]);
      }
      if exists i :: 0 <= i < |events| && k in Keys(events[i]) {
        var i :| 0 <= i < |events| && k in Keys(events[i]);
        if i > 0 {
          assert k in Keys(events[1..][i - 1]);
        }
      }
    }
  }

  /** Ruby's `uniq`: each element once, where it first occurs. */
  function Uniq(s: seq<string>): (r: seq<string>)
    ensures forall x :: x in r <==> x in s
    ensures forall i, j :: 0 <= i < j < |r| ==> r[i] != r[j]
    decreases |s|
  {
    if s == [] then []
    else
      var u := Uniq(s[..|s| - 1]);
      assert s == s[..|s| - 1] + [s[|s| - 1]];
      if s[|s| - 1] in u then u else u + [s[|s| - 1]]
  }

  /** Where `x` first occurs in `s`. */
  function FirstIndex(s: seq<string>, x: string): (i: nat)
    requires x in s
    ensures i < |s| && s[i] == x && x !in s[..i]
  {
    if s[0] == x then 0 else 1 + FirstIndex(s[1..], x)
  }

  lemma FirstIndexInPrefix(s: seq<string>, n: nat, x: string)
    requires n <= |s| && x in s[..n]
    ensures FirstIndex(s, x) == FirstIndex(s[..n], x)
  {
    var j := FirstIndex(s[..n], x);
    assert s[..n][..j] == s[..j];
  }

  /** The elements `Uniq` keeps come in the order of their first occurrence. */
  lemma {:induction false} UniqOrder(s: seq<string>)
    ensures forall p, q :: 0 <= p < q < |Uniq(s)| ==> FirstIndex(s, Uniq(s)[p]) < FirstIndex(s, Uniq(s)[q])
    decreases |s|
  {
    if s != [] {
      var n := |s| - 1;
      var s' := s[..n];
      var u := Uniq(s');
      UniqOrder(s');
      var r := Uniq(s);
      assert s == s' + [s[n]];
      assert |r| <= |u| + 1 && r[..|u|] == u;
      assert |r| == |u| + 1 ==> r[|u|] == s[n] && s[n] !in s';
      forall p, q | 0 <= p < q < |r|
        ensures FirstIndex(s, r[p]) < FirstIndex(s, r[q])
      {
        assert r[p] == u[p];
        FirstIndexInPrefix(s, n, r[p]);
        if q < |u| {
          assert r[q] == u[q];
          FirstIndexInPrefix(s, n, r[q]);
        } else {
          assert FirstIndex(s, r[q]) == n;
        }
      }
    }
  }

  /** The column names after `event`: every property name of every event,
      once each, in the order first seen. */
  function Header(events: seq<Event>): seq<string>
  {
    Uniq(AllKeys(events))
  }

  /** `Header` holds exactly the property names of the events, each once, in
      the order they are first seen going through the events in order. */
  lemma HeaderSpec(events: seq<Event>)
    ensures var h := Header(events);
            (forall k :: k in h <==> exists i :: 0 <= i < |events| && k in Keys(events[i])) &&
            (forall p, q :: 0 <= p < q < |h| ==> h[p] != h[q]) &&
            (forall p, q :: 0 <= p < q < |h| ==>
               FirstIndex(AllKeys(events), h[p]) < FirstIndex(AllKeys(events), h[q]))
  {
    forall k {
      AllKeysMembers(events, k);
    }
    UniqOrder(AllKeys(events));
  }

  /** `to_i` is defined for the `time` value of the event: a missing value
      (`nil`), a string and an integer answer it, `true` and `false` raise. */
  predicate TimeConvertible(e: Event)
  {
    match Lookup(e.props, "time")
    case Some(Bool(_)) => false
    case _ => true
  }

  /** Every event's `time` can be converted, so the table can be written. */
  predicate Tabulable(events: seq<Event>)
  {
    forall i :: 0 <= i < |events| ==> TimeConvertible(events[i])
  }

  /** An event whose `time` cannot be converted has a `time` property, so
      `time` is a column and its row does reach the conversion. */
  lemma TimeColumnPresent(events: seq<Event>, i: nat)
    requires i < |events| && !TimeConvertible(events[i])
    ensures "time" in Header(events)
  {
    var e := events[i];
    var v := Lookup(e.props, "time").value;
    var k :| 0 <= k < |e.props| && e.props[k] == ("time", v);
    assert Keys(e)[k] == "time";
    AllKeysMembers(events, "time");
  }

  /** One cell: `time` goes through the timestamp formatter `stamp` (which
      stands for `Time.at(v.to_i).strftime("%Y-%m-%d %H:%M:%S")` and also
      receives a missing value), every other column is the value's text or
      empty when the event lacks it. */
  function Cell(e: Event, col: string, stamp: Option<Value> -> string): string
  {
    if col == "time" then stamp(Lookup(e.props, col))
    else match Lookup(e.props, col)
      case None => ""
      case Some(v) => Show(v)
  }

  /** `[event["event"]] + headers.map { |col| ... }`. */
  function Row(e: Event, header: seq<string>, stamp: Option<Value> -> string): seq<string>
  {
    [e.name] + seq(|header|, j requires 0 <= j < |header| => Cell(e, header[j], stamp))
  }

  /** A row has one field per column and starts with the event name; the
      `time` column is whatever the formatter makes of the event's `time`. */
  lemma RowShape(e: Event, header: seq<string>, stamp: Option<Value> -> string)
    ensures var r := Row(e, header, stamp);
            |r| == 1 + |header| && r[0] == e.name &&
            forall j :: 0 <= j < |header| && header[j] == "time" ==>
              r[j + 1] == stamp(Lookup(e.props, "time"))
  {
  }

  /** A column the event lacks is empty, unless it is `time`. */
  lemma RowMissing(e: Event, header: seq<string>, stamp: Option<Value> -> string, j: nat)
    requires j < |header| && header[j] != "time" && header[j] !in Keys(e)
    ensures Row(e, header, stamp)[j + 1] == ""
  {
  }

  /** A column the event has, other than `time`, shows the event's value. */
  lemma RowPresent(e: Event, header: seq<string>, stamp: Option<Value> -> string, j: nat, i: nat)
    requires DistinctKeys(e)
    requires j < |header| && i < |e.props| && header[j] != "time" && header[j] == e.props[i].0
    ensures Row(e, header, stamp)[j + 1] == Show(e.props[i].1)
  {
    LookupDistinct(e, i);
  }

  /** The whole table: the header row, then one row per event in order. */
  function Table(events: seq<Event>, stamp: Option<Value> -> string): seq<seq<string>>
  {
    var h := Header(events);
    [["event"] + h] + seq(|events|, i requires 0 <= i < |events| => Row(events[i], h, stamp))
  }

  /** The loop of `write_to_csv`: write the header row, then append one row
      per event. Building the row of an event whose `time` has no `to_i`
      raises, and nothing is returned. */
  method WriteTable(events: seq<Event>, stamp: Option<Value> -> string) returns (table: Option<seq<seq<string>>>)
    ensures table.None? <==> !Tabulable(events)
    ensures table.Some? ==>
              var rows := table.value;
              |rows| == |events| + 1 && rows[0] == ["event"] + Header(events) &&
              (forall i :: 0 <= i < |events| ==> rows[i + 1] == Row(events[i], Header(events), stamp)) &&
              rows == Table(events, stamp)
  {
    var header := Header(events);
    var rows := [["event"] + header];
    for i := 0 to |events|
      invariant |rows| == i + 1
      invariant rows[0] == ["event"] + header
      invariant forall k :: 0 <= k < i ==> rows[k + 1] == Row(events[k], header, stamp)
      invariant forall k :: 0 <= k < i ==> TimeConvertible(events[k])
    {
      if !TimeConvertible(events[i]) {
        return None;
      }
      rows := rows + [Row(events[i], header, stamp)];
    }
    return Some(rows);
  }
}
