/**
  The dump parser of the inventory tool (`parseKeyValuePairs`): the raw text is cut at
  every `Key:` marker, each trimmed non-blank segment is cut at `Value:`, and a segment
  that falls into exactly two parts stores its trimmed key and value in the result map.
*/
module Parser {
  import opened Text

  const KeyMarker: string := "Key:"
  const ValueMarker: string := "Value:"

  datatype Option<T> = None | Some(value: T)

  /** One stored pair. */
  datatype KeyValue = KeyValue(key: string, value: string)

  /** What one `Key:` segment contributes, if anything. */
  function SegmentEntry(kv: string): Option<KeyValue>
  {
    var t := TrimSpace(kv);
    if |t| == 0 then None
    else
      var lines := Split(t, ValueMarker);
      if |lines| == 2 then Some(KeyValue(TrimSpace(lines[0]), TrimSpace(lines[1]))) else None
  }

  /** What each segment contributes, in order.  The two `ensures` only spell out the
      sequence constructor for the solver's benefit. */
  function Entries(segments: seq<string>): (r: seq<Option<KeyValue>>)
    ensures |r| == |segments|
    ensures forall n :: 0 <= n < |r| ==> r[n] == SegmentEntry(segments[n])
  {
    seq(|segments|, n requires 0 <= n < |segments| => SegmentEntry(segments[n]))
  }

  /** The effect of one contribution on the map built so far. */
  function Put(m: map<string, string>, e: Option<KeyValue>): map<string, string>
  {
    match e
    case None => m
    case Some(kv) => m[kv.key := kv.value]
  }

  /** The map after applying the contributions from left to right. */
  function Build(entries: seq<Option<KeyValue>>): map<string, string>
  {
    if |entries| == 0 then map[]
    else Put(Build(entries[..|entries| - 1]), entries[|entries| - 1])
  }

  /** The result `parseKeyValuePairs` computes for `data`. */
  function Parse(data: string): map<string, string>
  {
    Build(Entries(Split(data, KeyMarker)))
  }

  /** The parser as the source runs it: one pass over the segments updating `result`. */
  method ParseKeyValuePairs(data: string) returns (result: map<string, string>)
    ensures result == Parse(data)
    ensures forall k :: k in result ==> Trimmed(k) && Trimmed(result[k])
    ensures forall k :: k in result ==> NoMarker(k) && NoMarker(result[k])
  {
    result := map[];
    var keyValuePairs := Split(data, KeyMarker);
    ghost var entries := Entries(keyValuePairs);
    for i := 0 to |keyValuePairs|
      invariant result == Build(entries[..i])
    {
      BuildStep(entries, i);
      var kv := TrimSpace(keyValuePairs[i]);
      if |kv| == 0 {
        continue;
      }
      var lines := Split(kv, ValueMarker);
      if |lines| == 2 {
        var key := TrimSpace(lines[0]);
        var value := TrimSpace(lines[1]);
        result := result[key := value];
      }
    }
    assert entries[..|keyValuePairs|] == entries;
    ParseTrimmed(data);
    ParseHasNoMarkers(data);
  }

  /** One more contribution is one more `Put`. */
  lemma BuildStep(entries: seq<Option<KeyValue>>, i: nat)
    requires i < |entries|
    ensures Build(entries[..i + 1]) == Put(Build(entries[..i]), entries[i])
  {
    assert entries[..i + 1][..i] == entries[..i];
  }

  /** A contribution that writes the key `k`. */
  predicate Writes(e: Option<KeyValue>, k: string)
  {
    e.Some? && e.value.key == k
  }

  /** A contribution whose key and value are both trimmed (or no contribution). */
  predicate TrimmedEntry(e: Option<KeyValue>)
  {
    e.Some? ==> Trimmed(e.value.key) && Trimmed(e.value.value)
  }

  /** A contribution whose key and value hold neither marker (or no contribution). */
  predicate MarkerFree(e: Option<KeyValue>)
  {
    e.Some? ==> NoMarker(e.value.key) && NoMarker(e.value.value)
  }

  predicate NoMarker(s: string)
  {
    !Contains(s, KeyMarker) && !Contains(s, ValueMarker)
  }

  /** A key is stored exactly when some contribution writes it. */
  lemma {:induction false} BuildKeys(entries: seq<Option<KeyValue>>, k: string)
    ensures k in Build(entries) <==> exists n :: 0 <= n < |entries| && Writes(entries[n], k)
  {
    if |entries| > 0 {
      var init := entries[..|entries| - 1];
      BuildKeys(init, k);
      if exists n :: 0 <= n < |init| && Writes(init[n], k) {
        var n :| 0 <= n < |init| && Writes(init[n], k);
        assert entries[n] == init[n];
      }
      if exists n :: 0 <= n < |entries| && Writes(entries[n], k) {
        var n :| 0 <= n < |entries| && Writes(entries[n], k);
        if n < |init| {
          assert init[n] == entries[n];
        }
      }
    }
  }

  /** The last contribution that writes a key decides its stored value. */
  lemma {:induction false} BuildLastWins(entries: seq<Option<KeyValue>>, n: nat)
    requires n < |entries| && entries[n].Some?
    requires forall m :: n < m < |entries| ==> !Writes(entries[m], entries[n].value.key)
    ensures entries[n].value.key in Build(entries)
    ensures Build(entries)[entries[n].value.key] == entries[n].value.value
  {
    var init := entries[..|entries| - 1];
    if n < |entries| - 1 {
      forall m | n < m < |init|
        ensures !Writes(init[m], init[n].value.key)
      {
        assert init[m] == entries[m];
      }
      BuildLastWins(init, n);
      assert !Writes(entries[|entries| - 1], entries[n].value.key);
    }
  }

  /** Every stored key and value comes from some contribution, so is trimmed if all are. */
  lemma {:induction false} BuildKeepsTrimmed(entries: seq<Option<KeyValue>>)
    requires forall n :: 0 <= n < |entries| ==> TrimmedEntry(entries[n])
    ensures forall k :: k in Build(entries) ==> Trimmed(k) && Trimmed(Build(entries)[k])
  {
    if |entries| > 0 {
      BuildKeepsTrimmed(entries[..|entries| - 1]);
      assert TrimmedEntry(entries[|entries| - 1]);
    }
  }

  /** The same for freedom from the markers. */
  lemma {:induction false} BuildKeepsMarkerFree(entries: seq<Option<KeyValue>>)
    requires forall n :: 0 <= n < |entries| ==> MarkerFree(entries[n])
    ensures forall k :: k in Build(entries) ==> NoMarker(k) && NoMarker(Build(entries)[k])
  {
    if |entries| > 0 {
      BuildKeepsMarkerFree(entries[..|entries| - 1]);
      assert MarkerFree(entries[|entries| - 1]);
    }
  }

  /** There are never more entries than contributions. */
  lemma {:induction false} BuildSize(entries: seq<Option<KeyValue>>)
    ensures |Build(entries)| <= |entries|
  {
    if |entries| > 0 {
      var init := entries[..|entries| - 1];
      BuildSize(init);
      match entries[|entries| - 1]
      case None =>
      case Some(e) =>
        assert Build(entries).Keys == Build(init).Keys + {e.key};
    }
  }

  /** What a segment stores is trimmed. */
  lemma SegmentEntryTrimmed(kv: string)
    ensures TrimmedEntry(SegmentEntry(kv))
  {
  }

  /** Every stored key and value has no leading or trailing white space. */
  lemma ParseTrimmed(data: string)
    ensures forall k :: k in Parse(data) ==> Trimmed(k) && Trimmed(Parse(data)[k])
  {
    var entries := Entries(Split(data, KeyMarker));
    forall n | 0 <= n < |entries|
      ensures TrimmedEntry(entries[n])
    {
      SegmentEntryTrimmed(Split(data, KeyMarker)[n]);
    }
    BuildKeepsTrimmed(entries);
  }

  /** "Value:" cannot overlap itself, so its occurrences are exactly the cuts of `Split`. */
  lemma ValueMarkerNoSelfOverlap()
    ensures NoSelfOverlap(ValueMarker)
  {
    forall d | 0 < d < |ValueMarker|
      ensures ValueMarker[d..] != ValueMarker[..|ValueMarker| - d]
    {
      assert ValueMarker[d..][0] == ValueMarker[d] != 'V';
    }
  }

  lemma KeyMarkerNoSelfOverlap()
    ensures NoSelfOverlap(KeyMarker)
  {
    forall d | 0 < d < |KeyMarker|
      ensures KeyMarker[d..] != KeyMarker[..|KeyMarker| - d]
    {
      assert KeyMarker[d..][0] == KeyMarker[d] != 'K';
    }
  }

  /** A segment contributes exactly when it is not blank and holds exactly one `Value:`;
      blank segments and those with no or several markers are dropped. */
  lemma SegmentEntryIff(kv: string)
    ensures SegmentEntry(kv).Some?
        <==> TrimSpace(kv) != [] && OccurrenceCount(TrimSpace(kv), ValueMarker) == 1
  {
    ValueMarkerNoSelfOverlap();
    SplitLength(TrimSpace(kv), ValueMarker);
  }

  /** A blank or white-space-only dump yields no entries. */
  lemma ParseBlank(data: string)
    requires forall k :: 0 <= k < |data| ==> IsSpace(data[k])
    ensures Parse(data) == map[]
  {
    assert !Contains(data, KeyMarker) by {
      forall i | 0 <= i <= |data| - |KeyMarker|
        ensures !OccursAt(data, KeyMarker, i)
      {
        assert IsSpace(data[i]);
        if i + |KeyMarker| <= |data| {
          assert data[i..i + |KeyMarker|][0] == data[i];
        }
      }
    }
    assert Split(data, KeyMarker) == [data];
    TrimSpaceEmpty(data);
    assert SegmentEntry(data) == None;
    var entries := Entries([data]);
    assert entries == [None];
    assert entries[..0] == [];
    assert Build(entries) == Put(Build([]), None) == map[];
  }

  /** What a segment free of `Key:` stores holds neither marker. */
  lemma SegmentEntryMarkerFree(kv: string)
    requires !Contains(kv, KeyMarker)
    ensures MarkerFree(SegmentEntry(kv))
  {
    var t := TrimSpace(kv);
    if |t| > 0 {
      var lines := Split(t, ValueMarker);
      if |lines| == 2 {
        TrimSpaceIsFactor(kv);
        SplitPiecesAreFactors(t, ValueMarker);
        forall n | 0 <= n < 2
          ensures NoMarker(TrimSpace(lines[n]))
        {
          TrimSpaceIsFactor(lines[n]);
          if Contains(TrimSpace(lines[n]), KeyMarker) {
            ContainsTransitive(lines[n], TrimSpace(lines[n]), KeyMarker);
            ContainsTransitive(t, lines[n], KeyMarker);
            ContainsTransitive(kv, t, KeyMarker);
          }
          if Contains(TrimSpace(lines[n]), ValueMarker) {
            ContainsTransitive(lines[n], TrimSpace(lines[n]), ValueMarker);
          }
        }
      }
    }
  }

  /** No stored key or value contains `Key:` or `Value:`. */
  lemma ParseHasNoMarkers(data: string)
    ensures forall k :: k in Parse(data) ==> NoMarker(k) && NoMarker(Parse(data)[k])
  {
    var segments := Split(data, KeyMarker);
    var entries := Entries(segments);
    forall n | 0 <= n < |entries|
      ensures MarkerFree(entries[n])
    {
      SegmentEntryMarkerFree(segments[n]);
    }
    BuildKeepsMarkerFree(entries);
  }

  /** Some segment of `segments` contributes a pair with key `k`. */
  predicate SomeSegmentWrites(segments: seq<string>, k: string)
  {
    exists n :: 0 <= n < |segments| && Writes(SegmentEntry(segments[n]), k)
  }

  /** A key is stored exactly when some segment of `segments` writes it. */
  lemma EntriesKeys(segments: seq<string>, k: string)
    ensures k in Build(Entries(segments)) <==> SomeSegmentWrites(segments, k)
  {
    var entries := Entries(segments);
    BuildKeys(entries, k);
    if exists n :: 0 <= n < |entries| && Writes(entries[n], k) {
      var n :| 0 <= n < |entries| && Writes(entries[n], k);
      assert Writes(SegmentEntry(segments[n]), k);
    }
    if SomeSegmentWrites(segments, k) {
      var n :| 0 <= n < |segments| && Writes(SegmentEntry(segments[n]), k);
      assert Writes(entries[n], k);
    }
  }

  /** A key is stored exactly when some `Key:` segment writes it. */
  lemma ParseKeys(data: string, k: string)
    ensures k in Parse(data) <==> SomeSegmentWrites(Split(data, KeyMarker), k)
  {
    EntriesKeys(Split(data, KeyMarker), k);
  }

  /** Of several segments with the same trimmed key, the last one's value is the one kept. */
  lemma ParseLaterOverwrites(data: string, n: nat)
    requires n < |Split(data, KeyMarker)|
    requires SegmentEntry(Split(data, KeyMarker)[n]).Some?
    requires forall m :: n < m < |Split(data, KeyMarker)| ==>
      !Writes(SegmentEntry(Split(data, KeyMarker)[m]), SegmentEntry(Split(data, KeyMarker)[n]).value.key)
    ensures SegmentEntry(Split(data, KeyMarker)[n]).value.key in Parse(data)
    ensures Parse(data)[SegmentEntry(Split(data, KeyMarker)[n]).value.key]
        == SegmentEntry(Split(data, KeyMarker)[n]).value.value
  {
    var entries := Entries(Split(data, KeyMarker));
    forall m | n < m < |entries|
      ensures !Writes(entries[m], entries[n].value.key)
    {
    }
    BuildLastWins(entries, n);
  }

  /** The result has at most as many entries as there are `Key:` segments, which is one
      more than the number of `Key:` markers. */
  lemma ParseSize(data: string)
    ensures |Parse(data)| <= |Split(data, KeyMarker)| == OccurrenceCount(data, KeyMarker) + 1
  {
    BuildSize(Entries(Split(data, KeyMarker)));
    KeyMarkerNoSelfOverlap();
    SplitLength(data, KeyMarker);
  }
}
