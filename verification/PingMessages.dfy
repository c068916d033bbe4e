/** The host's ping broadcast: printed as "PING|id:ping:relay;id:ping:relay", parsed
    by every member into its table of remote pings. */
module PingMessages {
  import opened Options
  import opened Words

  const PREFIX: string := "PING|"

  datatype Ping = Ping(id: Word64, ping: Int32, relay: string)
  datatype PingInfo = PingInfo(ping: Int32, relay: string, updatedAt: int)

  type Int32 = x: int | -0x8000_0000 <= x < 0x8000_0000
  type Table = map<Word64, PingInfo>

  // ----- numbers in decimal -----

  predicate IsDigit(c: char) {
    '0' <= c <= '9'
  }

  predicate IsSpace(c: char) {
    c == ' ' || '\t' <= c <= '\r'
  }

  function ToDecimal(n: nat): (s: string)
    ensures s != "" && forall c | c in s :: IsDigit(c)
  {
    var digit := [('0' as int + n % 10) as char];
    if n < 10 then digit else ToDecimal(n / 10) + digit
  }

  function DigitValue(c: char): nat
    requires IsDigit(c)
  {
    c as int - '0' as int
  }

  function DecimalValue(s: string): nat
    requires forall c | c in s :: IsDigit(c)
  {
    if s == "" then 0
    else
      assert s[|s| - 1] in s;
      DecimalValue(s[..|s| - 1]) * 10 + DigitValue(s[|s| - 1])
  }

  function SkipSpace(s: string): string {
    if s != "" && IsSpace(s[0]) then SkipSpace(s[1..]) else s
  }

  function DigitPrefix(s: string): (d: string)
    ensures forall c | c in d :: IsDigit(c)
  {
    if s != "" && IsDigit(s[0]) then [s[0]] + DigitPrefix(s[1..]) else ""
  }

  /** Leading space, an optional sign, and the longest run of digits; anything after
      that is ignored. No digit at all is an error. */
  function ParseInteger(s: string): Option<int> {
    var t := SkipSpace(s);
    var signed := t != "" && (t[0] == '-' || t[0] == '+');
    var digits := DigitPrefix(if signed then t[1..] else t);
    var magnitude: int := DecimalValue(digits);
    if digits == "" then None
    else Some(if signed && t[0] == '-' then -magnitude else magnitude)
  }

  /** std::stoull: a minus sign negates modulo 2^64, and too large is an error. */
  function ParseUnsigned64(s: string): Option<Word64> {
    match ParseInteger(s)
    case None => None
    case Some(v) =>
      if v >= TWO_64 || v <= -TWO_64 then None else Some(v % TWO_64)
  }

  /** std::stoi: out of range is an error. */
  function ParseInt32(s: string): Option<Int32> {
    match ParseInteger(s)
    case None => None
    case Some(v) => if -0x8000_0000 <= v < 0x8000_0000 then Some(v) else None
  }

  lemma {:induction false} DecimalRoundTrip(n: nat)
    ensures DecimalValue(ToDecimal(n)) == n
  {
    var s := ToDecimal(n);
    if n >= 10 {
      DecimalRoundTrip(n / 10);
      assert s[..|s| - 1] == ToDecimal(n / 10);
    }
  }

  lemma {:induction false} DigitsAreTheirPrefix(s: string)
    requires forall c | c in s :: IsDigit(c)
    ensures DigitPrefix(s) == s
  {
    if s != "" {
      DigitsAreTheirPrefix(s[1..]);
    }
  }

  lemma ParsePrinted(n: nat)
    ensures ParseInteger(ToDecimal(n)) == Some(n)
  {
    var s := ToDecimal(n);
    assert s[0] in s;
    DigitsAreTheirPrefix(s);
    DecimalRoundTrip(n);
  }

  // ----- printing -----

  function PrintedPart(p: Ping): string
    requires p.ping >= 0
  {
    ToDecimal(p.id) + ":" + ToDecimal(p.ping) + ":" + p.relay
  }

  /** The parts of the message: one for each known ping, in order. */
  function Parts(pings: seq<Ping>): seq<string> {
    if pings == [] then []
    else
      var n := |pings| - 1;
      Parts(pings[..n]) + if pings[n].ping >= 0 then [PrintedPart(pings[n])] else []
  }

  function Join(parts: seq<string>): string {
    if parts == [] then ""
    else
      var n := |parts| - 1;
      if n == 0 then parts[0] else Join(parts[..n]) + ";" + parts[n]
  }

  method AppendPing(payload: string, p: Ping) returns (r: string)
    requires p.ping >= 0
    ensures r == payload + PrintedPart(p)
  {
    r := payload + ToDecimal(p.id);
    r := r + ":";
    r := r + ToDecimal(p.ping);
    r := r + ":";
    r := r + p.relay;
  }

  /** What the host sends, if there is anything to send. */
  method BroadcastPings(pings: seq<Ping>) returns (message: Option<string>)
    ensures message == if Parts(pings) == [] then None else Some(PREFIX + Join(Parts(pings)))
  {
    var payload := PREFIX;
    var first := true;
    for i := 0 to |pings|
      invariant first <==> Parts(pings[..i]) == []
      invariant payload == PREFIX + Text(pings[..i])
    {
      var p := pings[i];
      TextAppend(pings[..i], p);
      assert pings[..i + 1] == pings[..i] + [p];
      if p.ping < 0 {
        continue;
      }
      if !first {
        payload := payload + ";";
      }
      first := false;
      payload := AppendPing(payload, p);
    }
    assert pings[..|pings|] == pings;
    TextEmpty(pings);
    message := if |payload| <= |PREFIX| then None else Some(payload);
  }

  function Text(pings: seq<Ping>): string {
    if Parts(pings) == [] then "" else Join(Parts(pings))
  }

  lemma TextAppend(pings: seq<Ping>, p: Ping)
    ensures p.ping < 0 ==> Parts(pings + [p]) == Parts(pings)
    ensures p.ping >= 0 ==>
              && Parts(pings + [p]) != []
              && PREFIX + Text(pings + [p]) ==
                   (PREFIX + Text(pings)) + (if Parts(pings) == [] then "" else ";") + PrintedPart(p)
  {
    PartsAppend(pings, p);
    if p.ping >= 0 && Parts(pings) != [] {
      var text, part := Text(pings), PrintedPart(p);
      assert PREFIX + (text + ";" + part) == (PREFIX + text) + ";" + part;
    }
  }

  lemma TextEmpty(pings: seq<Ping>)
    ensures Text(pings) == "" <==> Parts(pings) == []
  {
    if Parts(pings) != [] {
      LastPartPrinted(pings);
    }
  }

  lemma {:induction false} LastPartPrinted(pings: seq<Ping>)
    requires Parts(pings) != []
    ensures Parts(pings)[|Parts(pings)| - 1] != ""
  {
    var n := |pings| - 1;
    if pings[n].ping < 0 {
      assert Parts(pings) == Parts(pings[..n]);
      LastPartPrinted(pings[..n]);
    }
  }

  lemma PartsAppend(pings: seq<Ping>, p: Ping)
    ensures p.ping < 0 ==> Parts(pings + [p]) == Parts(pings)
    ensures p.ping >= 0 ==>
              && Parts(pings + [p]) == Parts(pings) + [PrintedPart(p)]
              && Join(Parts(pings + [p])) ==
                   (if Parts(pings) == [] then "" else Join(Parts(pings)) + ";") + PrintedPart(p)
  {
    assert (pings + [p])[..|pings|] == pings;
    if p.ping >= 0 {
      assert (Parts(pings) + [PrintedPart(p)])[..|Parts(pings)|] == Parts(pings);
    }
  }

  // ----- parsing -----

  /** The first c at or after `from`, or the length if there is none. */
  function Find(s: string, c: char, from: nat): (i: nat)
    requires from <= |s|
    ensures from <= i <= |s|
    ensures forall k | from <= k < i :: s[k] != c
    ensures i < |s| ==> s[i] == c
    decreases |s| - from
  {
    if from == |s| || s[from] == c then from else Find(s, c, from + 1)
  }

  /** One part: everything after the second colon is the relay, colons included. A
      malformed part, or one with id 0 or a negative ping, changes nothing. */
  function Accept(table: Table, part: string, now: int): Table {
    var first := Find(part, ':', 0);
    if first == |part| then table
    else
      var second := Find(part, ':', first + 1);
      if second == |part| then table
      else
        match (ParseUnsigned64(part[..first]), ParseInt32(part[first + 1..second]))
        case (Some(id), Some(ping)) =>
          if id > 0 && ping >= 0 then table[id := PingInfo(ping, part[second + 1..], now)] else table
        case _ => table
  }

  /** Works through the text from `start` on, cut at semicolons. */
  function FoldPieces<T>(f: (T, string) -> T, init: T, data: string, start: nat): T
    requires start <= |data|
    decreases |data| - start
  {
    var next := Find(data, ';', start);
    var after := f(init, data[start..next]);
    if next == |data| then after else FoldPieces(f, after, data, next + 1)
  }

  function Acceptor(now: int): (Table, string) -> Table {
    (table, part) => Accept(table, part, now)
  }

  /** The table once the text from `start` on has been worked through. */
  function Rest(table: Table, data: string, start: nat, now: int): Table
    requires start <= |data|
  {
    FoldPieces(Acceptor(now), table, data, start)
  }

  function Received(table: Table, payload: string, now: int): Table {
    if PREFIX <= payload then Rest(table, payload[|PREFIX|..], 0, now) else table
  }

  lemma FoldPiecesStep<T>(f: (T, string) -> T, init: T, data: string, start: nat, next: nat, after: T)
    requires start <= |data| && next == Find(data, ';', start) && after == f(init, data[start..next])
    ensures FoldPieces(f, init, data, start) ==
              if next == |data| then after else FoldPieces(f, after, data, next + 1)
  {}

  lemma RestStep(table: Table, data: string, start: nat, now: int, next: nat, after: Table)
    requires start <= |data| && next == Find(data, ';', start)
    requires after == if data[start..next] == "" then table else Accept(table, data[start..next], now)
    ensures Rest(table, data, start, now) == if next == |data| then after else Rest(after, data, next + 1, now)
  {
    AcceptEmpty(table, now);
    FoldPiecesStep(Acceptor(now), table, data, start, next, after);
  }

  /** `rest` says what working through the text from a position on makes of a table. */
  ghost predicate IsRest(rest: (Table, nat) -> Table, data: string, now: int) {
    forall table: Table, start: nat {:trigger Rest(table, data, start, now)} | start <= |data| ::
      rest(table, start) == Rest(table, data, start, now)
  }

  lemma NothingLeft(rest: (Table, nat) -> Table, table: Table, data: string, now: int)
    requires IsRest(rest, data, now)
    ensures rest(table, |data|) == table
  {
    AcceptEmpty(table, now);
    assert Rest(table, data, |data|, now) == table;
  }

  lemma PartDone(rest: (Table, nat) -> Table, table: Table, data: string, start: nat, now: int, next: nat, after: Table)
    requires IsRest(rest, data, now)
    requires start <= |data| && next == Find(data, ';', start)
    requires after == if data[start..next] == "" then table else Accept(table, data[start..next], now)
    ensures rest(table, start) == if next == |data| then after else rest(after, next + 1)
  {
    RestStep(table, data, start, now, next, after);
    assert rest(table, start) == Rest(table, data, start, now);
    if next < |data| {
      assert rest(after, next + 1) == Rest(after, data, next + 1, now);
    }
  }

  class PingReceiver {
    var remotePings: Table

    /** The body of the parsing loop for one part. */
    method AcceptPart(part: string, now: int)
      modifies this
      ensures remotePings == Accept(old(remotePings), part, now)
    {
      var first := Find(part, ':', 0);
      if first == |part| {
        return;
      }
      var second := Find(part, ':', first + 1);
      if second == |part| {
        return;
      }
      var id, ping := ParseUnsigned64(part[..first]), ParseInt32(part[first + 1..second]);
      if id.Some? && ping.Some? && id.value > 0 && ping.value >= 0 {
        remotePings := remotePings[id.value := PingInfo(ping.value, part[second + 1..], now)];
      }
    }

    /** One round of the loop: the part from `start` to the next semicolon. */
    method HandlePart(data: string, start: nat, now: int, ghost rest: (Table, nat) -> Table) returns (next: nat)
      requires start < |data| && IsRest(rest, data, now)
      modifies this
      ensures start <= next <= |data|
      ensures rest(old(remotePings), start) == if next == |data| then remotePings else rest(remotePings, next + 1)
    {
      next := Find(data, ';', start);
      var part := data[start..next];
      if part != "" {
        AcceptPart(part, now);
      }
      PartDone(rest, old(remotePings), data, start, now, next, remotePings);
    }

    method HandleParts(data: string, now: int, ghost rest: (Table, nat) -> Table)
      requires IsRest(rest, data, now)
      modifies this
      ensures remotePings == rest(old(remotePings), 0)
    {
      var start := 0;
      while start < |data|
        invariant start <= |data| && rest(remotePings, start) == rest(old(remotePings), 0)
        decreases |data| - start
      {
        var next := HandlePart(data, start, now, rest);
        if next == |data| {
          return;
        }
        start := next + 1;
      }
      NothingLeft(rest, remotePings, data, now);
    }

    method HandlePingMessage(payload: string, now: int)
      modifies this
      ensures remotePings == Received(old(remotePings), payload, now)
    {
      if !(PREFIX <= payload) {
        return;
      }
      var data := payload[|PREFIX|..];
      ghost var rest := (table: Table, start: nat) =>
        if start <= |data| then Rest(table, data, start, now) else table;
      assert rest(remotePings, 0) == Rest(remotePings, data, 0, now);
      HandleParts(data, now, rest);
    }
  }

  lemma AcceptEmpty(table: Table, now: int)
    ensures Acceptor(now)(table, "") == table
  {}
}
