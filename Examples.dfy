/**
  The worked examples of the inventory tool's behaviour, proved about the model:
  duplicate keys, an empty key, whole-word matching and one end-to-end search.

  Several small lemmas here only regroup a concatenation, unfold `Entries` on a short
  list or restate a literal (`RegroupSegment`, `RegroupDump`, `RegroupEmptyKey`,
  `EntriesOfTwo`, `EntriesOfThree`, `FirstTwoDistinct`, `TwoTerms`, `KeyLine`,
  `SegmentSpacedParts`).  They exist to keep the solver's work small: stated inline, the
  same facts make the proofs that use them run out of resources.  For the same reason the
  example strings are passed as parameters pinned by `requires k1 == "region west"` and
  the like, rather than written into the `ensures`: a term whose arguments are all
  literals makes the solver unfold the string functions on those literals eagerly.
*/
module Examples {
  import opened Text
  import opened Parser
  import opened Selection

  /** A segment whose trimmed text is `key`, one `Value:` and `value` stores their trimmed forms. */
  lemma SegmentOf(kv: string, key: string, value: string)
    requires TrimSpace(kv) == key + ValueMarker + value
    requires !Contains(key, ValueMarker) && !Contains(value, ValueMarker)
    ensures SegmentEntry(kv) == Some(KeyValue(TrimSpace(key), TrimSpace(value)))
  {
    ValueMarkerNoSelfOverlap();
    SplitConcat(key, ValueMarker, value);
    SplitNoSeparator(value, ValueMarker);
    assert [key] + [value] == [key, value];
    assert |TrimSpace(kv)| >= |ValueMarker|;
    SegmentOfLines(kv, key, value);
  }

  /** A non-blank segment whose trimmed text splits at `Value:` into two lines stores them trimmed. */
  lemma SegmentOfLines(kv: string, key: string, value: string)
    requires TrimSpace(kv) != [] && Split(TrimSpace(kv), ValueMarker) == [key, value]
    ensures SegmentEntry(kv) == Some(KeyValue(TrimSpace(key), TrimSpace(value)))
  {
  }

  /** White space around a trimmed `key Value: value` is all that trimming removes. */
  lemma TrimParts(pre: string, key: string, value: string, post: string)
    requires AllSpace(pre) && AllSpace(post) && Trimmed(key + ValueMarker + value)
    ensures TrimSpace(pre + key + ValueMarker + value + post) == key + ValueMarker + value
  {
    assert pre + key + ValueMarker + value + post == pre + (key + ValueMarker + value) + post;
    TrimSpacePadded(pre, key + ValueMarker + value, post);
  }

  /** A segment made of white space, `key`, one `Value:`, `value` and white space stores
      the trimmed `key` and `value`. */
  lemma SegmentOfParts(pre: string, key: string, value: string, post: string)
    requires AllSpace(pre) && AllSpace(post) && Trimmed(key + ValueMarker + value)
    requires !Contains(key, ValueMarker) && !Contains(value, ValueMarker)
    ensures SegmentEntry(pre + key + ValueMarker + value + post)
         == Some(KeyValue(TrimSpace(key), TrimSpace(value)))
  {
    TrimParts(pre, key, value, post);
    SegmentOf(pre + key + ValueMarker + value + post, key, value);
  }

  /** A trimmed word with white space after or before it trims to itself. */
  lemma TrimPadded(w: string, p: string)
    requires Trimmed(w) && AllSpace(p)
    ensures TrimSpace(w + p) == w && TrimSpace(p + w) == w
  {
    assert w + p == [] + w + p;
    TrimSpacePadded([], w, p);
    assert p + w == p + w + [];
    TrimSpacePadded(p, w, []);
  }

  /** A trimmed, non-empty word holding neither a `K` nor a `V`, hence neither marker. */
  predicate PlainWord(w: string)
  {
    w != [] && Trimmed(w) && 'K' !in w && 'V' !in w
  }

  lemma PlainWordFacts(w: string)
    requires PlainWord(w)
    ensures !Contains(w, KeyMarker) && !Contains(w, ValueMarker)
    ensures !Contains(w + " ", ValueMarker) && !Contains(" " + w, ValueMarker)
    ensures TrimSpace(w + " ") == w && TrimSpace(" " + w) == w
  {
    NotContainsByChar(w, KeyMarker, 0);
    NotContainsByChar(w, ValueMarker, 0);
    NotContainsByChar(w + " ", ValueMarker, 0);
    NotContainsByChar(" " + w, ValueMarker, 0);
    assert AllSpace(" ");
    TrimPadded(w, " ");
  }

  /** `k Value: v` with one blank on each side of the marker neither starts nor ends with white space. */
  lemma TrimmedPair(k: string, v: string)
    requires PlainWord(k) && PlainWord(v)
    ensures Trimmed((k + " ") + ValueMarker + (" " + v))
  {
    var t := (k + " ") + ValueMarker + (" " + v);
    assert t[0] == k[0];
    assert t[|t| - 1] == v[|v| - 1];
  }

  /** ` k Value: v` followed by white space stores the trimmed `k ` and ` v`. */
  lemma SegmentSpacedParts(k: string, v: string, post: string)
    requires !Contains(k + " ", ValueMarker) && !Contains(" " + v, ValueMarker)
    requires AllSpace(post) && Trimmed((k + " ") + ValueMarker + (" " + v))
    ensures SegmentEntry(" " + (k + " ") + ValueMarker + (" " + v) + post)
         == Some(KeyValue(TrimSpace(k + " "), TrimSpace(" " + v)))
  {
    SegmentOfParts(" ", k + " ", " " + v, post);
  }

  /** The same, once those trimmed parts are known to be `k` and `v`. */
  lemma SegmentSpaced(k: string, v: string, post: string)
    requires !Contains(k + " ", ValueMarker) && !Contains(" " + v, ValueMarker)
    requires AllSpace(post) && Trimmed((k + " ") + ValueMarker + (" " + v))
    requires TrimSpace(k + " ") == k && TrimSpace(" " + v) == v
    ensures SegmentEntry(" " + (k + " ") + ValueMarker + (" " + v) + post) == Some(KeyValue(k, v))
  {
    SegmentSpacedParts(k, v, post);
  }

  /** Regrouping a flat concatenation into the parts of a segment. */
  lemma RegroupSegment(sp: string, k: string, marker: string, v: string, post: string)
    ensures sp + k + sp + marker + sp + v + post == sp + (k + sp) + marker + (sp + v) + post
  {
  }

  /** ` k Value: v` followed by white space, with plain words `k` and `v`, stores `v` under `k`. */
  lemma SegmentKeyValue(k: string, v: string, post: string)
    requires PlainWord(k) && PlainWord(v) && AllSpace(post)
    ensures SegmentEntry(" " + k + " " + ValueMarker + " " + v + post) == Some(KeyValue(k, v))
  {
    PlainWordFacts(k);
    PlainWordFacts(v);
    TrimmedPair(k, v);
    SegmentSpaced(k, v, post);
    RegroupSegment(" ", k, ValueMarker, v, post);
  }

  /** The segments of a dump with two `Key:` markers and no other `K`. */
  lemma SegmentsOfDump(s1: string, s2: string)
    requires 'K' !in s1 && 'K' !in s2
    ensures Split(KeyMarker + s1 + KeyMarker + s2, KeyMarker) == ["", s1, s2]
  {
    KeyMarkerNoSelfOverlap();
    NotContainsByChar("", KeyMarker, 0);
    NotContainsByChar(s1, KeyMarker, 0);
    NotContainsByChar(s2, KeyMarker, 0);
    assert KeyMarker + s1 + KeyMarker + s2 == "" + KeyMarker + (s1 + KeyMarker + s2);
    SplitConcat("", KeyMarker, s1 + KeyMarker + s2);
    SplitConcat(s1, KeyMarker, s2);
    SplitNoSeparator(s2, KeyMarker);
  }

  /** A blank segment and two writes of the same key leave the later value. */
  lemma BuildOverwrite(e1: KeyValue, e2: KeyValue)
    requires e1.key == e2.key
    ensures Build([None, Some(e1), Some(e2)]) == map[e2.key := e2.value]
  {
    var entries := [None, Some(e1), Some(e2)];
    assert entries[..2][..1] == [None];
    assert entries[..2] == [None, Some(e1)];
    assert entries[..1][..0] == [];
    assert Build([None]) == Put(Build([]), None) == map[];
    assert Build(entries[..2]) == Put(Build([None]), Some(e1)) == map[e1.key := e1.value];
    assert Build(entries) == Put(Build(entries[..2]), Some(e2));
  }

  /** A blank segment and one write leave exactly that pair. */
  lemma BuildSingle(e: KeyValue)
    ensures Build([None, Some(e)]) == map[e.key := e.value]
  {
    var entries := [None, Some(e)];
    assert entries[..1] == [None];
    assert entries[..1][..0] == [];
    assert Build([None]) == Put(Build([]), None) == map[];
    assert Build(entries) == Put(Build([None]), Some(e));
  }

  /** The contributions of three segments. */
  lemma EntriesOfThree(s0: string, s1: string, s2: string)
    ensures Entries([s0, s1, s2]) == [SegmentEntry(s0), SegmentEntry(s1), SegmentEntry(s2)]
  {
  }

  /** The contributions of two segments. */
  lemma EntriesOfTwo(s0: string, s1: string)
    ensures Entries([s0, s1]) == [SegmentEntry(s0), SegmentEntry(s1)]
  {
  }

  /** The empty text before the first `Key:` contributes nothing. */
  lemma BlankSegment()
    ensures TrimSpace("") == "" && SegmentEntry("") == None
  {
    TrimSpacePadded("", "", "");
  }

  /** Regrouping a flat two-entry dump into its `Key:` segments. */
  lemma RegroupDump(keyMarker: string, sp: string, valueMarker: string, k: string, v1: string, v2: string)
    ensures keyMarker + sp + k + sp + valueMarker + sp + v1 + sp + keyMarker + sp + k + sp + valueMarker + sp + v2
         == keyMarker + (sp + k + sp + valueMarker + sp + v1 + sp) + keyMarker + (sp + k + sp + valueMarker + sp + v2 + "")
  {
  }

  /** The segments of `Key: k Value: v1 Key: k Value: v2` and what each contributes. */
  lemma DuplicateDump(k: string, v1: string, v2: string) returns (s1: string, s2: string)
    requires PlainWord(k) && PlainWord(v1) && PlainWord(v2)
    ensures Split(KeyMarker + " " + k + " " + ValueMarker + " " + v1 + " " + KeyMarker + " " + k + " " + ValueMarker + " " + v2, KeyMarker)
         == ["", s1, s2]
    ensures SegmentEntry(s1) == Some(KeyValue(k, v1)) && SegmentEntry(s2) == Some(KeyValue(k, v2))
  {
    s1 := " " + k + " " + ValueMarker + " " + v1 + " ";
    s2 := " " + k + " " + ValueMarker + " " + v2 + "";
    RegroupDump(KeyMarker, " ", ValueMarker, k, v1, v2);
    assert 'K' !in s1 && 'K' !in s2;
    SegmentsOfDump(s1, s2);
    SegmentKeyValue(k, v1, " ");
    assert AllSpace("");
    SegmentKeyValue(k, v2, "");
  }

  /** `Key: k Value: v1 Key: k Value: v2` yields the single entry `k -> v2`: the later
      duplicate overwrites the earlier one (e.g. `Key: a Value: b Key: a Value: c`). */
  lemma ParseDuplicateKey(k: string, v1: string, v2: string)
    requires PlainWord(k) && PlainWord(v1) && PlainWord(v2)
    ensures Parse(KeyMarker + " " + k + " " + ValueMarker + " " + v1 + " " + KeyMarker + " " + k + " " + ValueMarker + " " + v2)
         == map[k := v2]
  {
    var s1, s2 := DuplicateDump(k, v1, v2);
    EntriesOfThree("", s1, s2);
    BlankSegment();
    BuildOverwrite(KeyValue(k, v1), KeyValue(k, v2));
  }

  /** Regrouping a flat one-entry dump into its `Key:` segments. */
  lemma RegroupEmptyKey(keyMarker: string, sp2: string, valueMarker: string, sp: string, v: string)
    ensures keyMarker + sp2 + valueMarker + sp + v == "" + keyMarker + (sp2 + "" + valueMarker + (sp + v) + "")
  {
  }

  /** The segments of `Key:  Value: v` and what the non-blank one contributes. */
  lemma EmptyKeyDump(v: string) returns (s1: string)
    requires PlainWord(v)
    ensures Split(KeyMarker + "  " + ValueMarker + " " + v, KeyMarker) == ["", s1]
    ensures SegmentEntry(s1) == Some(KeyValue("", v))
  {
    s1 := "  " + "" + ValueMarker + (" " + v) + "";
    RegroupEmptyKey(KeyMarker, "  ", ValueMarker, " ", v);
    KeyMarkerNoSelfOverlap();
    NotContainsByChar("", KeyMarker, 0);
    assert 'K' !in s1;
    NotContainsByChar(s1, KeyMarker, 0);
    SplitConcat("", KeyMarker, s1);
    SplitNoSeparator(s1, KeyMarker);
    EmptyKeySegment(v, s1);
  }

  /** `  Value: v` stores `v` under the empty key. */
  lemma EmptyKeySegment(v: string, s1: string)
    requires PlainWord(v) && s1 == "  " + "" + ValueMarker + (" " + v) + ""
    ensures SegmentEntry(s1) == Some(KeyValue("", v))
  {
    EmptyKeyValueFacts(v);
    BlankSegment();
    TrimmedValuePart(v);
    assert AllSpace("  ") && AllSpace("");
    EmptyKeySegmentParts(v, s1);
  }

  /** The facts about the two sides of `Value:` in `  Value: v`. */
  lemma EmptyKeyValueFacts(v: string)
    requires PlainWord(v)
    ensures !Contains("", ValueMarker) && !Contains(" " + v, ValueMarker) && TrimSpace(" " + v) == v
  {
    PlainWordFacts(v);
    NotContainsByChar("", ValueMarker, 0);
  }

  /** `Value: v` neither starts nor ends with white space. */
  lemma TrimmedValuePart(v: string)
    requires PlainWord(v)
    ensures Trimmed("" + ValueMarker + (" " + v))
  {
    var t := "" + ValueMarker + (" " + v);
    assert t[0] == 'V';
    assert t[|t| - 1] == v[|v| - 1];
  }

  /** `  Value: v` stores the trimmed parts around `Value:`. */
  lemma EmptyKeySegmentParts(v: string, s1: string)
    requires s1 == "  " + "" + ValueMarker + (" " + v) + ""
    requires !Contains("", ValueMarker) && !Contains(" " + v, ValueMarker)
    requires Trimmed("" + ValueMarker + (" " + v)) && AllSpace("  ") && AllSpace("")
    requires TrimSpace("") == "" && TrimSpace(" " + v) == v
    ensures SegmentEntry(s1) == Some(KeyValue("", v))
  {
    SegmentOfParts("  ", "", " " + v, "");
  }

  /** `Key:  Value: v` yields the entry `"" -> v`: an empty key is kept, only a blank
      segment is dropped. */
  lemma ParseEmptyKey(v: string)
    requires PlainWord(v)
    ensures Parse(KeyMarker + "  " + ValueMarker + " " + v) == map["" := v]
  {
    var s1 := EmptyKeyDump(v);
    EntriesOfTwo("", s1);
    BlankSegment();
    BuildSingle(KeyValue("", v));
  }

  /** `server` is a word of "the server runs"; `serverA2` is not, and `server` is not a word
      of "servers2". */
  lemma WholeWordMatches()
    ensures MatchString("the server runs", "server")
    ensures !MatchString("the server runs", "serverA2")
    ensures !MatchString("servers2", "server")
  {
    assert "the server runs"[4..10] == "server";
    assert MatchesAt("the server runs", "server", 4);
    NotContainsByChar("the server runs", "serverA2", 6);
    var s := "servers2";
    forall i | 0 <= i <= |s| - 6
      ensures !MatchesAt(s, "server", i)
    {
      if i == 0 {
        NoMatchInsideWord(s, "server", 0);
      } else {
        assert s[i..i + 6][0] == s[i] != 's';
      }
    }
  }

  /** An entry free of braces and of `data` in its key, with a whole-word match of the
      first term in its value and of the second in its key, is selected. */
  lemma SelectedByMatches(key: string, value: string, t1: string, t2: string, i: int, j: int)
    requires !HasBrace(key) && !HasBrace(value) && !Contains(key, "data")
    requires MatchesAt(value, t1, i) && MatchesAt(key, t2, j)
    ensures Selected(key, value, t1, t2)
  {
  }

  /** `region west -> servers active` holds no brace, and its key no `data`. */
  lemma RegionWestClean(k1: string, v1: string)
    requires k1 == "region west" && v1 == "servers active"
    ensures !HasBrace(k1) && !HasBrace(v1) && !Contains(k1, "data")
  {
    NotContainsByChar(k1, "{", 0);
    NotContainsByChar(k1, "}", 0);
    NotContainsByChar(v1, "{", 0);
    NotContainsByChar(v1, "}", 0);
    NotContainsByChar(k1, "data", 0);
  }

  /** `servers` is a whole word of `servers active` and `west` one of `region west`. */
  lemma RegionWestMatches(k1: string, v1: string, t1: string, t2: string)
    requires k1 == "region west" && v1 == "servers active"
    requires t1 == "servers" && t2 == "west"
    ensures MatchesAt(v1, t1, 0) && MatchesAt(k1, t2, 7)
  {
    assert v1[0..7] == t1;
    assert k1[7..11] == t2;
  }

  /** The search for `servers` and `west` shows `region west -> servers active`. */
  lemma RegionWestShown(k1: string, v1: string, t1: string, t2: string)
    requires k1 == "region west" && v1 == "servers active"
    requires t1 == "servers" && t2 == "west"
    ensures Selected(k1, v1, t1, t2)
  {
    RegionWestClean(k1, v1);
    RegionWestMatches(k1, v1, t1, t2);
    SelectedByMatches(k1, v1, t1, t2, 0, 7);
  }

  /** No search shows `database config`, whose key contains `data`. */
  lemma DatabaseConfigHidden(k2: string, v2: string, t1: string, t2: string)
    requires k2 == "database config"
    ensures !Selected(k2, v2, t1, t2)
  {
    assert k2[0..4] == "data";
    assert OccursAt(k2, "data", 0);
    DataKeyNeverSelected(k2, v2, t1, t2);
  }

  /** A duplicate-free sequence holding `k0` and nothing else is `[k0]`. */
  lemma SingletonOrder(order: seq<string>, k0: string)
    requires k0 in order && forall k :: k in order ==> k == k0
    requires forall i, j :: 0 <= i < j < |order| ==> order[i] != order[j]
    ensures order == [k0]
  {
    assert forall i :: 0 <= i < |order| ==> order[i] in order;
    if |order| >= 2 {
      FirstTwoDistinct(order);
      assert false;
    }
  }

  /** The first two elements of a duplicate-free sequence differ. */
  lemma FirstTwoDistinct(order: seq<string>)
    requires |order| >= 2
    requires forall i, j :: 0 <= i < j < |order| ==> order[i] != order[j]
    ensures order[0] != order[1]
  {
  }

  /** A value without a newline is printed on one line. */
  lemma RenderSingleLine(key: string, value: string)
    requires !Contains(value, "\n")
    ensures Render(key, value) == ["key=" + key, value, ""]
  {
    SplitNoSeparator(value, "\n");
  }

  /** Searching an inventory of two entries of which only the first is selected prints
      that entry's three lines and nothing else. */
  method SearchOneOfTwo(k1: string, v1: string, k2: string, v2: string, args: seq<string>, t1: string, t2: string)
    returns (out: seq<string>)
    requires 1 <= |args| <= 2 && SearchTerms(args) == (t1, t2)
    requires k1 != k2 && !Contains(v1, "\n")
    requires Selected(k1, v1, t1, t2) && !Selected(k2, v2, t1, t2)
    ensures out == ["key=" + k1, v1, ""]
  {
    var data := map[k1 := v1, k2 := v2];
    var order;
    out, order := Run(data, args);
    assert k1 in order;
    forall k | k in order
      ensures k == k1
    {
      assert k in data.Keys;
      assert data.Keys == {k1, k2};
    }
    SingletonOrder(order, k1);
    assert order[..0] == [];
    RenderSingleLine(k1, v1);
  }

  /** Two arguments are the two search terms. */
  lemma TwoTerms(args: seq<string>, t1: string, t2: string)
    requires args == [t1, t2]
    ensures SearchTerms(args) == (t1, t2)
  {
  }

  /** The first printed line of `region west`. */
  lemma KeyLine(k1: string)
    requires k1 == "region west"
    ensures "key=" + k1 == "key=region west"
  {
  }

  /** The end-to-end search for `servers` and `west` over `region west -> servers active`
      and `database config -> servers idle` prints exactly the three lines of
      `region west`: `key=region west`, `servers active` and an empty line. */
  method SearchRegionWest() returns (out: seq<string>)
    ensures out == ["key=region west", "servers active", ""]
  {
    var k1, v1 := "region west", "servers active";
    var k2, v2 := "database config", "servers idle";
    var t1, t2 := "servers", "west";
    RegionWestShown(k1, v1, t1, t2);
    DatabaseConfigHidden(k2, v2, t1, t2);
    NotContainsByChar(v1, "\n", 0);
    var args := [t1, t2];
    TwoTerms(args, t1, t2);
    KeyLine(k1);
    out := SearchOneOfTwo(k1, v1, k2, v2, args, t1, t2);
  }
}
