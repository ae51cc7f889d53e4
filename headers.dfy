/**
 * `HeadersBuilder.onHeaders`: walks the header entries in order, drops the
 * excluded names, masks the values of the masked names, and fires the
 * no-Content-Type fallback once when no surviving entry is named exactly
 * "Content-Type".
 *
 * The two callbacks are modelled by the trace of their invocations: one
 * `EmitHeader(key, values)` per `onEachHeader` call and one `NoContentType`
 * per `onNoContentTypeHeader` call, in the order they happen.
 */
module Headers {

  /** A header name with its values, as `HeadersBuilder.entries()` yields it. */
  type Entry = (string, seq<string>)

  /** One callback invocation of `onHeaders`. */
  datatype Event = EmitHeader(key: string, values: seq<string>) | NoContentType

  const ContentTypeName: string := "Content-Type"
  const MaskedValue: string := "[masked]"

  /** `filterNot { h -> excludedHeaders.contains(h.key) }`. */
  function Surviving(entries: seq<Entry>, excluded: set<string>): (kept: seq<Entry>)
    ensures |kept| <= |entries|
  {
    if |entries| == 0 then []
    else if entries[0].0 in excluded then Surviving(entries[1..], excluded)
    else [entries[0]] + Surviving(entries[1..], excluded)
  }

  /** An entry survives exactly when it is in the collection and its name is not excluded. */
  lemma {:induction false} SurvivingMember(entries: seq<Entry>, excluded: set<string>, e: Entry)
    ensures e in Surviving(entries, excluded) <==> e in entries && e.0 !in excluded
  {
    if |entries| > 0 {
      assert entries == [entries[0]] + entries[1..];
      SurvivingMember(entries[1..], excluded, e);
    }
  }

  /** The `onEachHeader` call for one surviving entry. */
  function Present(entry: Entry, masked: set<string>): Event
  {
    EmitHeader(entry.0, if entry.0 in masked then [MaskedValue] else entry.1)
  }

  /** Whether a surviving entry is named exactly "Content-Type" (case-sensitive). */
  predicate HasContentType(kept: seq<Entry>)
  {
    exists i :: 0 <= i < |kept| && kept[i].0 == ContentTypeName
  }

  /** The header callbacks for every surviving entry, in entry order. */
  function Emitted(kept: seq<Entry>, masked: set<string>): seq<Event>
  {
    seq(|kept|, i requires 0 <= i < |kept| => Present(kept[i], masked))
  }

  /**
   * The trace `onHeaders` produces: the header callbacks, followed by the
   * fallback when no surviving entry is named "Content-Type".
   */
  function HeaderEvents(entries: seq<Entry>, excluded: set<string>, masked: set<string>): seq<Event>
  {
    var kept := Surviving(entries, excluded);
    Emitted(kept, masked) + (if HasContentType(kept) then [] else [NoContentType])
  }

  /** `onHeaders`, with the early return for an empty header collection. */
  method OnHeaders(entries: seq<Entry>, excluded: set<string>, masked: set<string>)
    returns (events: seq<Event>)
    ensures events == HeaderEvents(entries, excluded, masked)
  {
    if |entries| == 0 {
      events := [NoContentType];
      return;
    }
    var containsContentType := false;
    var kept := Surviving(entries, excluded);
    events := [];
    var i := 0;
    while i < |kept|
      invariant 0 <= i <= |kept|
      invariant events == Emitted(kept[..i], masked)
      invariant containsContentType <==> HasContentType(kept[..i])
    {
      var (key, values) := kept[i];
      if key in masked {
        events := events + [EmitHeader(key, [MaskedValue])];
      } else {
        events := events + [EmitHeader(key, values)];
      }
      if key == ContentTypeName {
        containsContentType := true;
      }
      assert kept[..i + 1] == kept[..i] + [kept[i]];
      i := i + 1;
    }
    assert kept[..i] == kept;
    if !containsContentType {
      events := events + [NoContentType];
    }
  }

  // ---------------------------------------------------------------------
  // Properties of the trace

  /** Filtering distributes over concatenation: the entries that survive keep their relative order. */
  lemma {:induction false} SurvivingAppend(a: seq<Entry>, b: seq<Entry>, excluded: set<string>)
    ensures Surviving(a + b, excluded) == Surviving(a, excluded) + Surviving(b, excluded)
  {
    if |a| > 0 {
      assert (a + b)[0] == a[0];
      assert (a + b)[1..] == a[1..] + b;
      SurvivingAppend(a[1..], b, excluded);
    } else {
      assert a + b == b;
    }
  }

  /** With nothing excluded every entry is passed on, in the original order. */
  lemma {:induction false} SurvivingNoneExcluded(entries: seq<Entry>, excluded: set<string>)
    requires forall i :: 0 <= i < |entries| ==> entries[i].0 !in excluded
    ensures Surviving(entries, excluded) == entries
  {
    if |entries| > 0 {
      SurvivingNoneExcluded(entries[1..], excluded);
    }
  }

  /**
   * Every header callback names a non-excluded entry of the collection;
   * a masked name carries the single value "[masked]", any other name its
   * own values. Exclusion therefore wins over masking.
   */
  lemma EmittedHeaders(entries: seq<Entry>, excluded: set<string>, masked: set<string>, i: nat)
    requires i < |HeaderEvents(entries, excluded, masked)|
    requires HeaderEvents(entries, excluded, masked)[i].EmitHeader?
    ensures var e := HeaderEvents(entries, excluded, masked)[i];
      && e.key !in excluded
      && (exists vs :: (e.key, vs) in entries)
      && (e.key in masked ==> e.values == [MaskedValue])
      && (e.key !in masked ==> (e.key, e.values) in entries)
  {
    var kept := Surviving(entries, excluded);
    assert i < |kept|;
    SurvivingMember(entries, excluded, kept[i]);
  }

  /** Every non-excluded entry of the collection gets its header callback. */
  lemma EveryKeptEntryEmitted(entries: seq<Entry>, excluded: set<string>, masked: set<string>, entry: Entry)
    requires entry in entries && entry.0 !in excluded
    ensures Present(entry, masked) in HeaderEvents(entries, excluded, masked)
  {
    var kept := Surviving(entries, excluded);
    SurvivingMember(entries, excluded, entry);
    var i :| 0 <= i < |kept| && kept[i] == entry;
    assert HeaderEvents(entries, excluded, masked)[i] == Present(entry, masked);
  }

  /** How many times the no-Content-Type fallback appears in a trace. */
  function FallbackCount(events: seq<Event>): nat
  {
    if |events| == 0 then 0
    else (if events[0].NoContentType? then 1 else 0) + FallbackCount(events[1..])
  }

  lemma {:induction false} FallbackCountAppend(a: seq<Event>, b: seq<Event>)
    ensures FallbackCount(a + b) == FallbackCount(a) + FallbackCount(b)
  {
    if |a| > 0 {
      assert (a + b)[1..] == a[1..] + b;
      FallbackCountAppend(a[1..], b);
    } else {
      assert a + b == b;
    }
  }

  lemma {:induction false} FallbackCountEmitted(kept: seq<Entry>, masked: set<string>)
    ensures FallbackCount(Emitted(kept, masked)) == 0
  {
    if |kept| > 0 {
      FallbackCountEmitted(kept[1..], masked);
      assert Emitted(kept, masked) == [Present(kept[0], masked)] + Emitted(kept[1..], masked);
    }
  }

  /**
   * The fallback fires exactly once when no surviving entry is named
   * "Content-Type", and never otherwise; when it fires it is the last callback.
   */
  lemma FallbackOnce(entries: seq<Entry>, excluded: set<string>, masked: set<string>)
    ensures var events := HeaderEvents(entries, excluded, masked);
      var kept := Surviving(entries, excluded);
      && FallbackCount(events) == (if HasContentType(kept) then 0 else 1)
      && (NoContentType in events ==> events[|events| - 1] == NoContentType)
  {
    var kept := Surviving(entries, excluded);
    var tail: seq<Event> := if HasContentType(kept) then [] else [NoContentType];
    FallbackCountEmitted(kept, masked);
    FallbackCountAppend(Emitted(kept, masked), tail);
  }

  /**
   * A non-excluded entry named exactly "Content-Type" suppresses the
   * fallback, whether or not that name is masked.
   */
  lemma ContentTypeSuppressesFallback(entries: seq<Entry>, excluded: set<string>, masked: set<string>, values: seq<string>)
    requires (ContentTypeName, values) in entries && ContentTypeName !in excluded
    ensures NoContentType !in HeaderEvents(entries, excluded, masked)
  {
    var kept := Surviving(entries, excluded);
    SurvivingMember(entries, excluded, (ContentTypeName, values));
    var i :| 0 <= i < |kept| && kept[i] == (ContentTypeName, values);
    assert HasContentType(kept);
  }

  /** The match on "Content-Type" is case-sensitive: a lower-case name does not count. */
  lemma ContentTypeCaseSensitive(values: seq<string>)
    ensures HeaderEvents([("content-type", values)], {}, {})
      == [EmitHeader("content-type", values), NoContentType]
  {
    var kept := Surviving([("content-type", values)], {});
    assert kept == [("content-type", values)];
    assert "content-type"[0] != ContentTypeName[0];
  }

  /** An empty collection yields just the fallback, exactly as the general path does. */
  lemma EmptyHeaders(excluded: set<string>, masked: set<string>)
    ensures HeaderEvents([], excluded, masked) == [NoContentType]
  {
  }

  /** Excluding "Authorization" drops it, and the remaining headers keep their order. */
  lemma ExampleExcluded()
    ensures HeaderEvents([("Authorization", ["Bearer token"]), ("Content-Type", ["application/json"]),
                          ("User-Agent", ["KtorClient"])], {"Authorization"}, {})
      == [EmitHeader("Content-Type", ["application/json"]), EmitHeader("User-Agent", ["KtorClient"])]
  {
    var entries: seq<Entry> := [("Authorization", ["Bearer token"]), ("Content-Type", ["application/json"]),
                                ("User-Agent", ["KtorClient"])];
    var kept := Surviving(entries, {"Authorization"});
    assert "User-Agent" != "Authorization" by { assert "User-Agent"[0] != "Authorization"[0]; }
    assert "Content-Type" != "Authorization" by { assert "Content-Type"[0] != "Authorization"[0]; }
    assert kept == entries[1..];
    assert kept[0].0 == ContentTypeName;
  }
}
