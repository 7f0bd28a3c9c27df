/** The event log of the door monitor (main.cpp:501-515): the newest
    EventLogSize entries, each the time in lower-case hexadecimal, a space
    and the event. */
module EventLog {
  /** EventLogSize. */
  const EVENT_LOG_SIZE: nat := 20

  const HEX_DIGITS: string := "0123456789abcdef"

  /** The value of one digit as `hex` formatting writes it. */
  function DigitValue(c: char): nat
  {
    if '0' <= c <= '9' then (c - '0') as nat
    else if 'a' <= c <= 'f' then (c - 'a') as nat + 10
    else 0
  }

  /** The value of a string of hexadecimal digits, most significant
      first. */
  function HexValue(s: string): nat
  {
    if |s| == 0 then 0 else HexValue(s[..|s| - 1]) * 16 + DigitValue(s[|s| - 1])
  }

  /** n as `os << hex << n` writes it: lower-case digits, no leading zero. */
  function Hex(n: nat): (r: string)
    ensures |r| >= 1 && (forall c :: c in r ==> c in HEX_DIGITS)
    decreases n
  {
    if n < 16 then [HEX_DIGITS[n]] else Hex(n / 16) + [HEX_DIGITS[n % 16]]
  }

  /** Hex is exact: it reads back as n. */
  lemma {:induction false} HexRoundTrip(n: nat)
    ensures HexValue(Hex(n)) == n
    decreases n
  {
    if n >= 16 {
      HexRoundTrip(n / 16);
      var r := Hex(n);
      assert r[..|r| - 1] == Hex(n / 16);
      DigitRoundTrip(n % 16);
    } else {
      DigitRoundTrip(n);
    }
  }

  lemma DigitRoundTrip(d: nat)
    requires d < 16
    ensures DigitValue(HEX_DIGITS[d]) == d
  {
  }

  /** Hex is canonical: it starts with 0 only for 0. */
  lemma {:induction false} HexNoLeadingZero(n: nat)
    ensures Hex(n)[0] == '0' <==> n == 0
    decreases n
  {
    if n >= 16 {
      HexNoLeadingZero(n / 16);
      assert Hex(n)[0] == Hex(n / 16)[0];
    }
  }

  /** One log line: the time, a space, the event. */
  function Entry(time: nat, event: string): string
  {
    Hex(time) + " " + event
  }

  /** The log after addEvent: the oldest entry goes first when the log is
      full, the new one is appended. */
  function Logged(entries: seq<string>, entry: string): (r: seq<string>)
    ensures |entries| <= EVENT_LOG_SIZE ==> |r| <= EVENT_LOG_SIZE
    ensures |r| >= 1 && r[|r| - 1] == entry
  {
    if |entries| >= EVENT_LOG_SIZE then entries[1..] + [entry] else entries + [entry]
  }

  /** The log after a series of addEvent calls. */
  function LoggedAll(entries: seq<string>, added: seq<string>): seq<string>
    decreases |added|
  {
    if |added| == 0 then entries
    else LoggedAll(Logged(entries, added[0]), added[1..])
  }

  function Min(a: nat, b: nat): nat
  {
    if a <= b then a else b
  }

  /** The last n elements of s. */
  function Newest(s: seq<string>, n: nat): (r: seq<string>)
    ensures |r| == Min(n, |s|)
  {
    if n >= |s| then s else s[|s| - n..]
  }

  /** The log is a window: after any series of events, it holds exactly the
      newest EventLogSize entries of what was logged, in order. */
  lemma {:induction false} LogWindow(entries: seq<string>, added: seq<string>)
    requires |entries| <= EVENT_LOG_SIZE
    ensures LoggedAll(entries, added) == Newest(entries + added, EVENT_LOG_SIZE)
    decreases |added|
  {
    if |added| > 0 {
      var next := Logged(entries, added[0]);
      LogWindow(next, added[1..]);
      assert next == Newest(entries + [added[0]], EVENT_LOG_SIZE);
      var all := entries + added;
      assert (entries + [added[0]]) + added[1..] == all;
      NewestAppend(entries + [added[0]], added[1..], EVENT_LOG_SIZE);
    } else {
      assert entries + added == entries;
    }
  }

  /** Taking the newest n before appending more does not change the newest
      n of the whole. */
  lemma NewestAppend(s: seq<string>, t: seq<string>, n: nat)
    ensures Newest(Newest(s, n) + t, n) == Newest(s + t, n)
  {
    if n < |s| {
      var m := |s| - n;
      assert Newest(s, n) + t == (s + t)[m..];
    }
  }

  /** The EventLog deque. */
  class Log {
    var entries: seq<string>

    ghost predicate Valid()
      reads this
    {
      |entries| <= EVENT_LOG_SIZE
    }

    constructor ()
      ensures Valid() && entries == []
    {
      entries := [];
    }

    /** addEvent (main.cpp:506-515); time(NULL) is the parameter now. */
    method AddEvent(now: nat, event: string)
      requires Valid()
      modifies this
      ensures Valid() && entries == Logged(old(entries), Entry(now, event))
    {
      if |entries| >= EVENT_LOG_SIZE {
        entries := entries[1..];
      }
      entries := entries + [Entry(now, event)];
    }
  }
}
