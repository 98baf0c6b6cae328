/**
  The search of the `get` command: which parsed entries are shown for two search terms,
  and the lines printed for each one shown.  A term matches a text when it occurs there
  literally with a word boundary (in the sense of RE2's `\b`) on both sides.
*/
module Selection {
  import opened Text

  /** The second term used when the command is given only one. */
  const DefaultSecondTerm: string := "servers"

  /** RE2's ASCII word characters `[0-9A-Za-z_]`. */
  predicate IsWord(c: char)
  {
    ('0' <= c <= '9') || ('A' <= c <= 'Z') || ('a' <= c <= 'z') || c == '_'
  }

  /** Position `p` of `s` holds a word character; positions outside `s` do not. */
  predicate WordAt(s: string, p: int)
  {
    0 <= p < |s| && IsWord(s[p])
  }

  /** RE2's `\b` at position `p`: a word character on exactly one side. */
  predicate Boundary(s: string, p: int)
  {
    WordAt(s, p - 1) != WordAt(s, p)
  }

  /** `t` occurs literally at `i` with a word boundary before and after it. */
  predicate MatchesAt(s: string, t: string, i: int)
  {
    OccursAt(s, t, i) && Boundary(s, i) && Boundary(s, i + |t|)
  }

  /** The reference meaning of a whole-word match of `t` in `s`. */
  predicate WholeWord(s: string, t: string)
  {
    exists i | 0 <= i <= |s| - |t| :: MatchesAt(s, t, i)
  }

  /** Leftmost-first scan for a whole-word match starting at position `i` or later. */
  function MatchFrom(s: string, t: string, i: nat): (r: bool)
    requires i <= |s|
    ensures r <==> exists j | i <= j <= |s| - |t| :: MatchesAt(s, t, j)
    decreases |s| - i
  {
    if i + |t| > |s| then false
    else if MatchesAt(s, t, i) then true
    else if i == |s| then false
    else MatchFrom(s, t, i + 1)
  }

  /** `regexp.MustCompile("\b" + QuoteMeta(t) + "\b").MatchString(s)`. */
  function MatchString(s: string, t: string): (r: bool)
    ensures r <==> WholeWord(s, t)
  {
    MatchFrom(s, t, 0)
  }

  predicate HasBrace(s: string)
  {
    Contains(s, "{") || Contains(s, "}")
  }

  /** The condition under which the `get` command prints an entry for the terms `t1`, `t2`. */
  predicate Selected(key: string, value: string, t1: string, t2: string)
  {
    && !HasBrace(key) && !HasBrace(value)
    && !Contains(key, "data")
    && (MatchString(key, t1) || MatchString(value, t1))
    && (MatchString(key, t2) || MatchString(value, t2))
  }

  /** The two search terms taken from the one or two command arguments. */
  function SearchTerms(args: seq<string>): (terms: (string, string))
    requires 1 <= |args| <= 2
    ensures terms.0 == args[0]
    ensures terms.1 == if |args| == 2 then args[1] else DefaultSecondTerm
  {
    if |args| == 1 then (args[0], DefaultSecondTerm) else (args[0], args[1])
  }

  /** A separator of one character never overlaps itself. */
  lemma NewlineNoSelfOverlap()
    ensures NoSelfOverlap("\n")
  {
  }

  /** The lines printed for one selected entry. */
  function Render(key: string, value: string): seq<string>
  {
    ["key=" + key] + Split(value, "\n") + [""]
  }

  /** An entry is printed as `key=<key>`, then the lines of its value (which joined by
      newlines give the value back and hold no newline themselves), then one empty line.
      The count is of `Println` calls: a key may itself hold newlines (the parser keeps
      them inside a key), so only the value's lines are known to be newline-free. */
  lemma RenderLines(key: string, value: string)
    ensures |Render(key, value)| == OccurrenceCount(value, "\n") + 3
    ensures Render(key, value)[0] == "key=" + key && Render(key, value)[|Render(key, value)| - 1] == ""
    ensures Join(Render(key, value)[1..|Render(key, value)| - 1], "\n") == value
    ensures forall n :: 1 <= n < |Render(key, value)| - 1 ==> !Contains(Render(key, value)[n], "\n")
  {
    var pieces := Split(value, "\n");
    NewlineNoSelfOverlap();
    SplitLength(value, "\n");
    var lines := ["key=" + key] + pieces + [""];
    assert lines[1..|lines| - 1] == pieces;
  }

  /** The text `fmt.Println` writes for each of `lines` in turn. */
  function Output(lines: seq<string>): string
  {
    if |lines| == 0 then [] else lines[0] + "\n" + Output(lines[1..])
  }

  /** Printing lines one by one writes them joined by newlines, plus a final newline. */
  lemma {:induction false} OutputIsJoin(lines: seq<string>)
    requires |lines| > 0
    ensures Output(lines) == Join(lines, "\n") + "\n"
  {
    if |lines| > 1 {
      OutputIsJoin(lines[1..]);
    }
  }

  /** Joining a sequence with one more piece at the end. */
  lemma {:induction false} JoinSnoc(parts: seq<string>, last: string, sep: string)
    requires |parts| > 0
    ensures Join(parts + [last], sep) == Join(parts, sep) + sep + last
  {
    if |parts| > 1 {
      assert (parts + [last])[1..] == parts[1..] + [last];
      JoinSnoc(parts[1..], last, sep);
    } else {
      assert (parts + [last])[1..] == [last];
    }
  }

  /** Joining a first piece, some middle pieces and a last piece. */
  lemma JoinFramed(first: string, middle: seq<string>, last: string, sep: string)
    requires |middle| > 0
    ensures Join([first] + middle + [last], sep) == first + sep + Join(middle, sep) + sep + last
  {
    var parts := [first] + middle + [last];
    assert parts[0] == first && parts[1..] == middle + [last];
    JoinSnoc(middle, last, sep);
  }

  /** An entry is printed as `key=<key>`, a newline, its value, and two newlines. */
  lemma RenderOutput(key: string, value: string)
    ensures Output(Render(key, value)) == "key=" + key + "\n" + value + "\n\n"
  {
    var pieces := Split(value, "\n");
    var lines := ["key=" + key] + pieces + [""];
    assert Render(key, value) == lines;
    OutputIsJoin(lines);
    JoinFramed("key=" + key, pieces, "", "\n");
    assert ("key=" + key + "\n" + value) + "\n" + "" + "\n" == "key=" + key + "\n" + value + "\n\n";
  }

  /** Printing all entries of `data` under `keys`, in that order. */
  function RenderAll(data: map<string, string>, keys: seq<string>): seq<string>
    requires forall k :: k in keys ==> k in data
  {
    if |keys| == 0 then []
    else RenderAll(data, keys[..|keys| - 1]) + Render(keys[|keys| - 1], data[keys[|keys| - 1]])
  }

  /** Printing one more entry appends its lines. */
  lemma RenderAllSnoc(data: map<string, string>, keys: seq<string>, k: string)
    requires k in data && forall j :: j in keys ==> j in data
    ensures RenderAll(data, keys + [k]) == RenderAll(data, keys) + Render(k, data[k])
  {
    assert (keys + [k])[..|keys|] == keys;
  }

  /** The filter-and-print loop of the `get` command over already parsed `data`.  The map is
      visited in an order chosen by the runtime; `order` is the sequence of selected keys in
      the order they were printed. */
  method Run(data: map<string, string>, args: seq<string>) returns (out: seq<string>, order: seq<string>)
    requires 1 <= |args| <= 2
    ensures forall k :: k in order <==> k in data && Selected(k, data[k], SearchTerms(args).0, SearchTerms(args).1)
    ensures forall i, j :: 0 <= i < j < |order| ==> order[i] != order[j]
    ensures out == RenderAll(data, order)
  {
    var terms := SearchTerms(args);
    ghost var shown := set k | k in data && Selected(k, data[k], terms.0, terms.1);
    var remaining := data.Keys;
    out, order := [], [];
    while remaining != {}
      invariant remaining <= data.Keys
      invariant forall k :: k in order <==> k in shown && k !in remaining
      invariant forall i, j :: 0 <= i < j < |order| ==> order[i] != order[j]
      invariant forall k :: k in order ==> k in data
      invariant out == RenderAll(data, order)
      decreases remaining
    {
      var key :| key in remaining;
      remaining := remaining - {key};
      var value := data[key];
      if Selected(key, value, terms.0, terms.1) {
        RenderAllSnoc(data, order, key);
        out := out + Render(key, value);
        order := order + [key];
      }
    }
  }

  /** An entry whose key or value holds a brace is never selected. */
  lemma BraceNeverSelected(key: string, value: string, t1: string, t2: string)
    requires Contains(key, "{") || Contains(key, "}") || Contains(value, "{") || Contains(value, "}")
    ensures !Selected(key, value, t1, t2)
  {
  }

  /** An entry whose key contains `data` is never selected. */
  lemma DataKeyNeverSelected(key: string, value: string, t1: string, t2: string)
    requires Contains(key, "data")
    ensures !Selected(key, value, t1, t2)
  {
  }

  /** In a selected entry each term occurs literally, bounded by word boundaries, in the
      key or in the value. */
  lemma SelectedHasWholeWords(key: string, value: string, t1: string, t2: string)
    requires Selected(key, value, t1, t2)
    ensures exists i :: MatchesAt(key, t1, i) || MatchesAt(value, t1, i)
    ensures exists i :: MatchesAt(key, t2, i) || MatchesAt(value, t2, i)
  {
  }

  /** Swapping the terms selects the same entries. */
  lemma SelectedSymmetric(key: string, value: string, t1: string, t2: string)
    ensures Selected(key, value, t1, t2) == Selected(key, value, t2, t1)
  {
  }

  /** A term ending in a word character does not match where a word character follows,
      so a prefix of a longer word does not count. */
  lemma NoMatchInsideWord(s: string, t: string, i: nat)
    requires |t| > 0 && IsWord(t[|t| - 1])
    requires i + |t| < |s| && IsWord(s[i + |t|])
    ensures !MatchesAt(s, t, i)
  {
    if OccursAt(s, t, i) {
      assert s[i + |t| - 1] == s[i..i + |t|][|t| - 1];
    }
  }

  /** A term starting with a word character does not match where a word character precedes,
      so a suffix of a longer word does not count either. */
  lemma NoMatchAfterWord(s: string, t: string, i: nat)
    requires |t| > 0 && IsWord(t[0])
    requires 0 < i && i + |t| <= |s| && IsWord(s[i - 1])
    ensures !MatchesAt(s, t, i)
  {
    if OccursAt(s, t, i) {
      assert s[i] == s[i..i + |t|][0];
    }
  }
}
