/** The ping message character by character: what numbers, parts and whole messages are read as, and
    what the broadcast is made of. */
module PingLaws {
  import opened Options
  import opened Words
  import opened PingMessages
  import opened PingRoundTrip

  // ----- numbers -----

  ghost predicate Blank(c: char) {
    c == ' ' || c == '\t' || c == '\n' || c == '\r' || c as int == 11 || c as int == 12
  }

  ghost predicate Digits(s: string)
    ensures Digits(s) ==> forall c | c in s :: IsDigit(c)
  {
    forall k | 0 <= k < |s| :: '0' <= s[k] <= '9'
  }

  function Pow10(n: nat): nat {
    if n == 0 then 1 else 10 * Pow10(n - 1)
  }

  /** The first digit counts for the highest power of ten. */
  lemma {:induction false} LeadingDigit(c: char, s: string)
    requires Digits([c]) && Digits(s)
    ensures Digits([c] + s) && Digits("") && DecimalValue("") == 0
    ensures [c][0] == c && '0' <= c <= '9'
    ensures DecimalValue([c] + s) == (c as int - '0' as int) * Pow10(|s|) + DecimalValue(s)
  {
    var all := [c] + s;
    assert [c][0] == c;
    if s == "" {
      assert all[..0] == "" && all[0] == c;
    } else {
      var n := |s| - 1;
      assert all[..n + 1] == [c] + s[..n] && all[n + 1] == s[n];
      LeadingDigit(c, s[..n]);
      ShiftDigits(c as int - '0' as int, Pow10(n), DecimalValue(s[..n]), DigitValue(s[n]));
    }
  }

  lemma ShiftDigits(d: int, p: int, x: int, y: int)
    ensures (d * p + x) * 10 + y == d * (10 * p) + (x * 10 + y)
  {}

  lemma {:induction false} BlanksSkipped(blanks: string, s: string)
    requires forall c | c in blanks :: Blank(c)
    requires s == "" || !Blank(s[0])
    ensures SkipSpace(blanks + s) == s
  {
    if blanks == "" {
      assert blanks + s == s;
    } else {
      assert (blanks + s)[1..] == blanks[1..] + s && blanks[0] in blanks;
      BlanksSkipped(blanks[1..], s);
    }
  }

  lemma {:induction false} DigitsTaken(digits: string, rest: string)
    requires Digits(digits) && (rest == "" || !('0' <= rest[0] <= '9'))
    ensures DigitPrefix(digits + rest) == digits
  {
    if digits == "" {
      assert digits + rest == rest;
    } else {
      assert (digits + rest)[1..] == digits[1..] + rest && (digits + rest)[0] == digits[0];
      DigitsTaken(digits[1..], rest);
    }
  }

  /** Blanks, a sign or none, digits, and anything that does not go on with a digit: the number is
      that of the digits, and there is none without digits. A text with no sign and no digits must
      not go on like one that has them. */
  lemma NumberExactly(blanks: string, sign: string, digits: string, rest: string)
    requires (forall c | c in blanks :: Blank(c)) && sign in {"", "+", "-"} && Digits(digits)
    requires rest == "" || !('0' <= rest[0] <= '9')
    requires sign == "" && digits == "" && rest != "" ==> !Blank(rest[0]) && rest[0] != '+' && rest[0] != '-'
    ensures ParseInteger(blanks + (sign + (digits + rest))) ==
              if digits == "" then None else Some((if sign == "-" then -1 else 1) * DecimalValue(digits))
  {
    var body := digits + rest;
    var t := sign + body;
    if digits != "" {
      assert body[0] == digits[0];
    }
    assert t != "" ==> t[0] == if sign == "" then body[0] else sign[0];
    assert t[|sign|..] == body;
    BlanksSkipped(blanks, t);
    DigitsTaken(digits, rest);
    ReadSigned(blanks + t, t, sign, digits);
  }

  lemma ReadSigned(s: string, t: string, sign: string, digits: string)
    requires SkipSpace(s) == t && sign in {"", "+", "-"} && sign <= t
    requires sign == "" && t != "" ==> t[0] != '+' && t[0] != '-'
    requires Digits(digits) && DigitPrefix(t[|sign|..]) == digits
    ensures ParseInteger(s) ==
              if digits == "" then None else Some((if sign == "-" then -1 else 1) * DecimalValue(digits))
  {
    if sign == "" {
      assert t[0..] == t;
    } else {
      assert t[0] == sign[0];
    }
  }

  // ----- one part -----

  ghost predicate Free(s: string, c: char) {
    forall k | 0 <= k < |s| :: s[k] != c
  }

  lemma FindFirst(s: string, c: char, rest: string)
    requires Free(s, c)
    ensures Find(s + [c] + rest, c, 0) == |s|
  {
    FindAt(s + [c] + rest, c, 0, |s|);
  }

  /** A part with no colon, or with one, changes nothing. */
  lemma ShortPartIgnored(table: Table, a: string, b: string, now: int)
    requires Free(a, ':') && Free(b, ':')
    ensures Accept(table, a, now) == table
    ensures Accept(table, a + ":" + b, now) == table
  {
    FindNowhere(a, ':', 0);
    FindFirst(a, ':', b);
    FindNowhere(a + ":" + b, ':', |a| + 1);
  }

  /** A part a:b:c is stored for the account that a reads as, modulo 2^64 if it is negative, with the
      ping that b reads as and the relay c, colons included, and with the time it arrives. It is
      ignored if a or b is not a number, if a is 0 or of 2^64 or more, or if b is negative or does
      not fit 32 bits. */
  lemma PartExactly(table: Table, a: string, b: string, c: string, now: int)
    requires Free(a, ':') && Free(b, ':')
    ensures Accept(table, a + ":" + b + ":" + c, now) ==
              match (ParseInteger(a), ParseInteger(b))
              case (Some(u), Some(v)) =>
                if u != 0 && -0x1_0000_0000_0000_0000 < u < 0x1_0000_0000_0000_0000 && 0 <= v < 0x8000_0000
                then table[if u < 0 then u + 0x1_0000_0000_0000_0000 else u := PingInfo(v, c, now)] else table
              case _ => table
  {
    var part, first, second := a + ":" + b + ":" + c, |a|, |a| + 1 + |b|;
    assert part[..first] == a && part[first + 1..second] == b && part[second + 1..] == c;
    forall k | 0 <= k < first ensures part[k] != ':' {
      assert part[k] == a[k];
    }
    FindAt(part, ':', 0, first);
    forall k | first + 1 <= k < second ensures part[k] != ':' {
      assert part[k] == b[k - first - 1];
    }
    FindAt(part, ':', first + 1, second);
    FieldsRead(table, a, b, c, now, part, first, second);
  }

  lemma FieldsRead(table: Table, a: string, b: string, c: string, now: int, part: string, first: nat, second: nat)
    requires first < second < |part| && Find(part, ':', 0) == first && Find(part, ':', first + 1) == second
    requires part[..first] == a && part[first + 1..second] == b && part[second + 1..] == c
    ensures Accept(table, part, now) ==
              match (ParseInteger(a), ParseInteger(b))
              case (Some(u), Some(v)) =>
                if u != 0 && -0x1_0000_0000_0000_0000 < u < 0x1_0000_0000_0000_0000 && 0 <= v < 0x8000_0000
                then table[if u < 0 then u + 0x1_0000_0000_0000_0000 else u := PingInfo(v, c, now)] else table
              case _ => table
  {
    AcceptFields(table, part, now, first, second);
    if ParseInteger(a).Some? && -TWO_64 < ParseInteger(a).value < TWO_64 {
      var u := ParseInteger(a).value;
      var id := if u < 0 then u + TWO_64 else u;
      DivisionUnique(u, TWO_64, if u < 0 then -1 else 0, id);
    }
  }

  // ----- a whole message -----

  /** A message without the prefix teaches nothing; with it, the parts between semicolons are worked
      through from first to last. */
  lemma MessageExactly(table: Table, text: string, part: string, now: int)
    requires Free(part, ';')
    ensures !("PING|" <= text) ==> Received(table, text, now) == table
    ensures Received(table, "PING|" + part, now) == Accept(table, part, now)
    ensures Received(table, "PING|" + (text + ";" + part), now) == Accept(Received(table, "PING|" + text, now), part, now)
  {
    Prefixed(table, part, now);
    Prefixed(table, text, now);
    Prefixed(table, text + ";" + part, now);
    OnePart(table, part, now);
    OnePart(Rest(table, text, 0, now), part, now);
    JoinedRest(table, text, part, now);
  }

  lemma OnePart(table: Table, part: string, now: int)
    requires Free(part, ';')
    ensures Rest(table, part, 0, now) == Accept(table, part, now)
  {
    FindNowhere(part, ';', 0);
    assert part[0..|part|] == part;
    FoldPiecesStep(Acceptor(now), table, part, 0, |part|, Accept(table, part, now));
  }

  lemma JoinedRest(table: Table, text: string, part: string, now: int)
    ensures Rest(table, text + ";" + part, 0, now) == Rest(Rest(table, text, 0, now), part, 0, now)
  {
    FoldJoin(Acceptor(now), table, text, part, 0);
  }

  lemma Prefixed(table: Table, text: string, now: int)
    ensures Received(table, "PING|" + text, now) == Rest(table, text, 0, now)
  {
    assert ("PING|" + text)[|PREFIX|..] == text;
  }

  // ----- what is sent and what is meant -----

  /** One more known ping adds its account, ping and relay to the text, and a semicolon before them
      if there is text already; an unknown ping, shown by a negative number, adds nothing. */
  lemma TextExactly(pings: seq<Ping>, p: Ping)
    ensures Parts([]) == []
    ensures p.ping < 0 ==> Parts(pings + [p]) == Parts(pings)
    ensures p.ping >= 0 ==>
              && Parts(pings + [p]) != []
              && Join(Parts(pings + [p])) ==
                   (if Parts(pings) == [] then "" else Join(Parts(pings)) + ";")
                   + (ToDecimal(p.id) + ":" + ToDecimal(p.ping) + ":" + p.relay)
  {
    PartsAppend(pings, p);
  }

  /** Ping k is the last known one of the account. */
  ghost predicate LastKnown(pings: seq<Ping>, id: Word64, k: nat) {
    && k < |pings| && id > 0 && pings[k].id == id && pings[k].ping >= 0
    && forall j | k < j < |pings| :: pings[j].id != id || pings[j].ping < 0
  }

  /** What the members are meant to learn: of each account but 0 the last known ping, and of those
      with none what they know already. */
  lemma {:induction false} LearnedIsLast(table: Table, pings: seq<Ping>, now: int, id: Word64, k: nat)
    requires LastKnown(pings, id, k)
    ensures var learned := Learned(table, pings, now);
            id in learned && learned[id] == PingInfo(pings[k].ping, pings[k].relay, now)
  {
    var n := |pings| - 1;
    if k < n {
      assert LastKnown(pings[..n], id, k) && (pings[n].id != id || pings[n].ping < 0);
      LearnedIsLast(table, pings[..n], now, id, k);
    }
  }

  lemma {:induction false} UnknownStays(table: Table, pings: seq<Ping>, now: int, id: Word64)
    requires id == 0 || forall j | 0 <= j < |pings| :: pings[j].id != id || pings[j].ping < 0
    ensures var learned := Learned(table, pings, now);
            (id in learned <==> id in table) && (id in table ==> learned[id] == table[id])
  {
    if pings != [] {
      UnknownStays(table, pings[..|pings| - 1], now, id);
    }
  }
}
