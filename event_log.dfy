/** The selection rule of helper.js's `parseEventLog`: which ABI event
    definition decodes a log entry. The event signature hash and the decoding
    itself belong to web3's `SolidityEvent` and are parameters here. */
module EventLog {
  import opened Wrappers

  /** One entry of a contract ABI. The filter reads only `entryType`; the
      signature function may read every field. */
  datatype AbiEntry = AbiEntry(entryType: string, name: string, inputs: seq<string>)

  /** A raw log entry: its first topic names the event signature. */
  datatype Log = Log(topics: seq<string>, data: string)

  /** "0x" starts at index `k` of `s`. */
  predicate PrefixAt(s: string, k: nat)
    requires k + 1 < |s|
  {
    s[k] == '0' && s[k + 1] == 'x'
  }

  /** `s.replace('0x', '')`: with a string pattern JavaScript removes only the
      first occurrence, wherever it stands. */
  function RemoveFirst0x(s: string): (r: string)
    ensures |r| == |s| || |r| + 2 == |s|
  {
    if |s| < 2 then s
    else if PrefixAt(s, 0) then s[2..]
    else [s[0]] + RemoveFirst0x(s[1..])
  }

  /** A topic without "0x" is compared unchanged. */
  lemma {:induction false} RemoveFirst0xAbsent(s: string)
    requires forall k :: 0 <= k && k + 1 < |s| ==> !PrefixAt(s, k)
    ensures RemoveFirst0x(s) == s
    decreases |s|
  {
    if |s| >= 2 {
      assert !PrefixAt(s, 0);
      var t := s[1..];
      forall k | 0 <= k && k + 1 < |t| ensures !PrefixAt(t, k) {
        assert !PrefixAt(s, k + 1);
      }
      RemoveFirst0xAbsent(t);
      assert s == [s[0]] + t;
    }
  }

  /** When the first "0x" of `s` starts at `k`, exactly those two characters
      are removed. */
  lemma {:induction false} RemoveFirst0xAt(s: string, k: nat)
    requires k + 1 < |s| && PrefixAt(s, k)
    requires forall j :: 0 <= j < k ==> !PrefixAt(s, j)
    ensures RemoveFirst0x(s) == s[..k] + s[k + 2..]
    decreases k
  {
    if k == 0 {
      assert s[..0] + s[2..] == s[2..];
    } else {
      var t := s[1..];
      assert !PrefixAt(s, 0);
      forall j | 0 <= j < k - 1 ensures !PrefixAt(t, j) {
        assert !PrefixAt(s, j + 1);
      }
      RemoveFirst0xAt(t, k - 1);
      CutAfterHead(s, k);
    }
  }

  /** Cutting two characters at `k` commutes with taking off the head. */
  lemma CutAfterHead(s: string, k: nat)
    requires 0 < k && k + 2 <= |s|
    ensures [s[0]] + (s[1..][..k - 1] + s[1..][k + 1..]) == s[..k] + s[k + 2..]
  {
  }

  /** `abi.filter(e => e.type == 'event')`, order kept. */
  function Events(abi: seq<AbiEntry>): (es: seq<AbiEntry>)
    ensures |es| <= |abi|
  {
    if abi == [] then []
    else
      (if abi[0].entryType == "event" then [abi[0]] else []) + Events(abi[1..])
  }

  /** The filter keeps exactly the entries of type "event". */
  lemma {:induction false} EventsMembers(abi: seq<AbiEntry>)
    ensures forall e :: e in Events(abi) <==> e in abi && e.entryType == "event"
    decreases |abi|
  {
    if abi != [] {
      EventsMembers(abi[1..]);
      assert abi == [abi[0]] + abi[1..];
    }
  }

  /** Filtering splits over concatenation, so the events keep their ABI order. */
  lemma {:induction false} EventsAppend(a: seq<AbiEntry>, b: seq<AbiEntry>)
    ensures Events(a + b) == Events(a) + Events(b)
    decreases |a|
  {
    if a == [] {
      assert a + b == b;
    } else {
      var head := if a[0].entryType == "event" then [a[0]] else [];
      assert (a + b)[0] == a[0] && (a + b)[1..] == a[1..] + b;
      assert Events(a + b) == head + Events(a[1..] + b);
      EventsAppend(a[1..], b);
      assert head + (Events(a[1..]) + Events(b)) == (head + Events(a[1..])) + Events(b);
    }
  }

  /** Entry `k` of the ABI is an event whose signature equals `topic`. */
  predicate Selectable(abi: seq<AbiEntry>, k: nat, topic: string, signature: AbiEntry -> string)
    requires k < |abi|
  {
    abi[k].entryType == "event" && signature(abi[k]) == topic
  }

  /** The events of an ABI with one more entry at the end. */
  lemma EventsSnoc(abi: seq<AbiEntry>)
    requires abi != []
    ensures Events(abi) == Events(abi[..|abi| - 1])
                           + (if abi[|abi| - 1].entryType == "event" then [abi[|abi| - 1]] else [])
  {
    var n := |abi| - 1;
    assert abi == abi[..n] + [abi[n]];
    EventsAppend(abi[..n], [abi[n]]);
    assert Events([abi[n]]) == (if abi[n].entryType == "event" then [abi[n]] else []);
  }

  /** Selecting among the events of an ABI looks at its last entry first. */
  lemma LastMatchEventsSnoc(abi: seq<AbiEntry>, topic: string, signature: AbiEntry -> string)
    requires abi != []
    ensures LastMatch(Events(abi), topic, signature)
         == if Selectable(abi, |abi| - 1, topic, signature) then Some(abi[|abi| - 1])
            else LastMatch(Events(abi[..|abi| - 1]), topic, signature)
  {
    var n := |abi| - 1;
    EventsSnoc(abi);
    var es := Events(abi);
    if abi[n].entryType == "event" {
      assert es != [] && es[|es| - 1] == abi[n];
      assert es[..|es| - 1] == Events(abi[..n]);
      assert LastMatch(es, topic, signature)
          == if signature(abi[n]) == topic then Some(abi[n])
             else LastMatch(es[..|es| - 1], topic, signature);
    } else {
      assert es == Events(abi[..n]);
    }
  }

  /** A matching event in the ABI means some entry is selected. */
  lemma {:induction false} MatchIsSelected(abi: seq<AbiEntry>, k: nat, topic: string, signature: AbiEntry -> string)
    requires k < |abi| && Selectable(abi, k, topic, signature)
    ensures LastMatch(Events(abi), topic, signature).Some?
    decreases |abi|
  {
    var n := |abi| - 1;
    LastMatchEventsSnoc(abi, topic, signature);
    if k < n && !Selectable(abi, n, topic, signature) {
      assert abi[..n][k] == abi[k];
      MatchIsSelected(abi[..n], k, topic, signature);
    }
  }

  /** A selected entry is the matching event with the largest index `k` in
      the ABI. */
  lemma {:induction false} LastSelected(abi: seq<AbiEntry>, topic: string, signature: AbiEntry -> string)
    returns (k: nat)
    requires LastMatch(Events(abi), topic, signature).Some?
    ensures k < |abi| && Selectable(abi, k, topic, signature)
    ensures LastMatch(Events(abi), topic, signature).value == abi[k]
    ensures forall j :: k < j < |abi| ==> !Selectable(abi, j, topic, signature)
    decreases |abi|
  {
    var n := |abi| - 1;
    LastMatchEventsSnoc(abi, topic, signature);
    if Selectable(abi, n, topic, signature) {
      k := n;
    } else {
      var init := abi[..n];
      k := LastSelected(init, topic, signature);
      assert init[k] == abi[k];
      forall j | k < j < |abi| ensures !Selectable(abi, j, topic, signature) {
        if j < n {
          assert init[j] == abi[j] && !Selectable(init, j, topic, signature);
        }
      }
    }
  }

  /** Nothing is selected exactly when no ABI entry is a matching event. */
  lemma NothingSelected(abi: seq<AbiEntry>, topic: string, signature: AbiEntry -> string)
    ensures LastMatch(Events(abi), topic, signature).None? <==>
            forall k :: 0 <= k < |abi| ==> !Selectable(abi, k, topic, signature)
  {
    if LastMatch(Events(abi), topic, signature).Some? {
      var k := LastSelected(abi, topic, signature);
    }
    forall k | 0 <= k < |abi| && Selectable(abi, k, topic, signature)
      ensures LastMatch(Events(abi), topic, signature).Some?
    {
      MatchIsSelected(abi, k, topic, signature);
    }
  }

  /** The entry whose decoding `parseEventLog` returns: its `find` callback
      never answers true, so every event is visited and each match overwrites
      the previous one. The last match wins. */
  function LastMatch(events: seq<AbiEntry>, topic: string, signature: AbiEntry -> string): (r: Option<AbiEntry>)
    ensures r.Some? ==> signature(r.value) == topic
  {
    if events == [] then None
    else if signature(events[|events| - 1]) == topic then Some(events[|events| - 1])
    else LastMatch(events[..|events| - 1], topic, signature)
  }

  /** No entry is selected exactly when none matches; a selected entry matches
      and no entry after it does. */
  lemma {:induction false} LastMatchIsLast(events: seq<AbiEntry>, topic: string, signature: AbiEntry -> string)
    ensures LastMatch(events, topic, signature).None? <==>
            forall k :: 0 <= k < |events| ==> signature(events[k]) != topic
    ensures LastMatch(events, topic, signature).Some? ==>
            exists k :: 0 <= k < |events| && events[k] == LastMatch(events, topic, signature).value
                        && signature(events[k]) == topic
                        && forall j :: k < j < |events| ==> signature(events[j]) != topic
    decreases |events|
  {
    if events != [] {
      var n := |events| - 1;
      var init := events[..n];
      LastMatchIsLast(init, topic, signature);
      if signature(events[n]) != topic {
        assert forall k :: 0 <= k < n ==> init[k] == events[k];
        if LastMatch(init, topic, signature).Some? {
          var k :| 0 <= k < n && init[k] == LastMatch(init, topic, signature).value
                   && signature(init[k]) == topic
                   && forall j :: k < j < n ==> signature(init[j]) != topic;
          assert events[k] == init[k];
        }
      }
    }
  }

  /** Two events with one signature: the later one is selected, although a
      first-match search would pick the earlier. */
  lemma CollidingSignaturesPickLast(first: AbiEntry, second: AbiEntry, topic: string, signature: AbiEntry -> string)
    requires first != second && signature(first) == topic && signature(second) == topic
    ensures LastMatch([first, second], topic, signature) == Some(second) != Some(first)
  {
  }

  /** What the decoded log becomes once an entry is selected. */
  function DecodeSelected<D>(selected: Option<AbiEntry>, log: Log, decode: (AbiEntry, Log) -> D): (r: Option<D>)
    ensures r.None? <==> selected.None?
    ensures selected.Some? ==> r.value == decode(selected.value, log)
  {
    match selected
    case None => None
    case Some(e) => Some(decode(e, log))
  }

  /** `parseEventLog(abi, eventLog)`: visits every event entry of the ABI in
      order and decodes the log with each one whose signature equals the first
      topic with its first "0x" removed. Reading the first topic of a log with
      no topics throws, but only once an event entry is visited. */
  method ParseEventLog<D>(abi: seq<AbiEntry>, log: Log, signature: AbiEntry -> string,
                          decode: (AbiEntry, Log) -> D)
    returns (r: Result<Option<D>>)
    ensures Events(abi) == [] ==> r == Success(None)
    ensures Events(abi) != [] && log.topics == [] ==> r.Failure?
    ensures log.topics != [] ==>
            r == Success(DecodeSelected(LastMatch(Events(abi), RemoveFirst0x(log.topics[0]), signature), log, decode))
  {
    var events := Events(abi);
    var parsed: Option<D> := None;
    var i := 0;
    while i < |events|
      invariant 0 <= i <= |events|
      invariant i > 0 ==> log.topics != []
      invariant log.topics != [] ==>
                parsed == DecodeSelected(LastMatch(events[..i], RemoveFirst0x(log.topics[0]), signature), log, decode)
      invariant log.topics == [] ==> parsed == None
    {
      if log.topics == [] {
        return Failure("TypeError: Cannot read property 'replace' of undefined");
      }
      assert events[..i + 1][..i] == events[..i];
      if signature(events[i]) == RemoveFirst0x(log.topics[0]) {
        parsed := Some(decode(events[i], log));
      }
      i := i + 1;
    }
    assert events[..i] == events;
    return Success(parsed);
  }
}
