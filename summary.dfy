/** The final research summary written once the run has finished
    (`DeepResearcher.create_summary`): the answer text followed, when the
    message carries citations, by a numbered list of deduplicated
    citations. The output file is modelled as the string returned. */
module Summary {
  import opened Text
  import opened Messages

  const CitationsHeader := "\n\n## Citations\n"

  /** The key a citation is registered under: its text span, or
      `"fallback_" + url` when the span is empty. */
  function CitationKey(a: Annotation): string
  {
    if a.text != "" then a.text else "fallback_" + a.url
  }

  /** A non-empty span is the key itself; an empty span gives
      `"fallback_"` followed by the URL, so two annotations with empty
      spans share a key exactly when they share a URL. */
  lemma CitationKeyFacts(a: Annotation, b: Annotation)
    ensures a.text != "" ==> CitationKey(a) == a.text
    ensures a.text == "" ==> StartsWith(CitationKey(a), "fallback_") && CitationKey(a)[9..] == a.url
    ensures a.text == "" && b.text == "" ==> (CitationKey(a) == CitationKey(b) <==> a.url == b.url)
  {
    if a.text == "" && b.text == "" && CitationKey(a) == CitationKey(b) {
      assert CitationKey(a)[9..] == CitationKey(b)[9..];
    }
  }

  /** `title or url`: a missing or empty title is shown as the URL. */
  function DisplayTitle(a: Annotation): (t: string)
    ensures t == "" ==> a.url == ""
    ensures a.title.None? ==> t == a.url
    ensures a.title == Some("") ==> t == a.url
    ensures a.title.Some? && a.title.value != "" ==> t == a.title.value
  {
    match a.title
    case Some(t) => if t != "" then t else a.url
    case None => a.url
  }

  /** The Markdown link `[title](url)` kept for one citation; without a
      usable title the URL is shown twice. */
  function Render(a: Annotation): (r: string)
    ensures (a.title.None? || a.title == Some("")) ==> r == "[" + a.url + "](" + a.url + ")"
    ensures a.title.Some? && a.title.value != "" ==> r == "[" + a.title.value + "](" + a.url + ")"
  {
    "[" + DisplayTitle(a) + "](" + a.url + ")"
  }

  function Rendered(adm: seq<Annotation>): seq<string>
  {
    seq(|adm|, j requires 0 <= j < |adm| => Render(adm[j]))
  }

  /** The URLs of a run of annotations. */
  function Urls(anns: seq<Annotation>): set<string>
    decreases |anns|
  {
    if anns == [] then {} else Urls(anns[..|anns| - 1]) + {anns[|anns| - 1].url}
  }

  /** The citation keys of a run of annotations. */
  function Keys(anns: seq<Annotation>): set<string>
    decreases |anns|
  {
    if anns == [] then {} else Keys(anns[..|anns| - 1]) + {CitationKey(anns[|anns| - 1])}
  }

  lemma {:induction false} UrlsAndKeysOfMembers(anns: seq<Annotation>)
    ensures forall a :: a in anns ==> a.url in Urls(anns) && CitationKey(a) in Keys(anns)
    decreases |anns|
  {
    if anns != [] {
      UrlsAndKeysOfMembers(anns[..|anns| - 1]);
      assert anns == anns[..|anns| - 1] + [anns[|anns| - 1]];
    }
  }

  /** The annotations that get a numbered entry, in order. The last
      annotation is admitted exactly when its URL occurs in no earlier
      annotation (admitted or not) and its key belongs to no earlier
      admitted annotation. */
  function Admitted(anns: seq<Annotation>): (r: seq<Annotation>)
    ensures |r| <= |anns|
    decreases |anns|
  {
    if anns == [] then []
    else
      var earlier := anns[..|anns| - 1];
      var a := anns[|anns| - 1];
      var prev := Admitted(earlier);
      if a.url !in Urls(earlier) && CitationKey(a) !in Keys(prev) then prev + [a] else prev
  }

  /** The ordinal table: each admitted citation's key maps to its 1-based
      position. */
  function Ordinals(adm: seq<Annotation>): map<string, nat>
    decreases |adm|
  {
    if adm == [] then map[]
    else Ordinals(adm[..|adm| - 1])[CitationKey(adm[|adm| - 1]) := |adm|]
  }

  /** `xs` can be obtained from `ys` by deleting elements. */
  ghost predicate IsSubsequence<T>(xs: seq<T>, ys: seq<T>)
    decreases |ys|
  {
    if xs == [] then true
    else if ys == [] then false
    else (xs[|xs| - 1] == ys[|ys| - 1] && IsSubsequence(xs[..|xs| - 1], ys[..|ys| - 1]))
         || IsSubsequence(xs, ys[..|ys| - 1])
  }

  lemma {:induction false} SubsequenceFacts<T>(xs: seq<T>, ys: seq<T>)
    requires IsSubsequence(xs, ys)
    ensures |xs| <= |ys|
    ensures forall x :: x in xs ==> x in ys
    decreases |ys|
  {
    if xs != [] {
      var ys' := ys[..|ys| - 1];
      if xs[|xs| - 1] == ys[|ys| - 1] && IsSubsequence(xs[..|xs| - 1], ys') {
        SubsequenceFacts(xs[..|xs| - 1], ys');
        assert xs == xs[..|xs| - 1] + [ys[|ys| - 1]];
        assert ys == ys' + [ys[|ys| - 1]];
      } else {
        SubsequenceFacts(xs, ys');
        assert ys == ys' + [ys[|ys| - 1]];
      }
    }
  }

  /** The entries keep the order of the annotations they come from, and
      there are never more entries than annotations. */
  lemma {:induction false} AdmittedIsSubsequence(anns: seq<Annotation>)
    ensures IsSubsequence(Admitted(anns), anns)
    ensures |Admitted(anns)| <= |anns|
    ensures forall a :: a in Admitted(anns) ==> a in anns
    decreases |anns|
  {
    if anns != [] {
      var earlier := anns[..|anns| - 1];
      var prev := Admitted(earlier);
      AdmittedIsSubsequence(earlier);
      if Admitted(anns) == prev {
        assert IsSubsequence(prev, anns) by {
          if prev != [] {
            assert anns[..|anns| - 1] == earlier;
          }
        }
      } else {
        assert Admitted(anns) == prev + [anns[|anns| - 1]];
        assert (prev + [anns[|anns| - 1]])[..|prev|] == prev;
      }
      SubsequenceFacts(Admitted(anns), anns);
    }
  }

  /** An annotation whose URL has already occurred adds no entry. */
  lemma SeenUrlAddsNothing(anns: seq<Annotation>, a: Annotation)
    requires a.url in Urls(anns)
    ensures Admitted(anns + [a]) == Admitted(anns)
  {
    assert (anns + [a])[..|anns|] == anns;
  }

  /** An annotation with a fresh URL whose key is already registered adds
      no entry, yet its URL is among the URLs so far, which is what
      `RegisterCitations` keeps as its seen set. */
  lemma RegisteredKeyAddsNothing(anns: seq<Annotation>, a: Annotation)
    requires CitationKey(a) in Keys(Admitted(anns))
    ensures Admitted(anns + [a]) == Admitted(anns)
    ensures a.url in Urls(anns + [a])
  {
    assert (anns + [a])[..|anns|] == anns;
    assert (anns + [a])[|anns|] == a;
  }

  /** The URLs of the entries are pairwise distinct. */
  lemma {:induction false} AdmittedUrlsDistinct(anns: seq<Annotation>)
    ensures forall i, j :: 0 <= i < j < |Admitted(anns)| ==> Admitted(anns)[i].url != Admitted(anns)[j].url
    decreases |anns|
  {
    if anns != [] {
      var earlier := anns[..|anns| - 1];
      var a := anns[|anns| - 1];
      var prev := Admitted(earlier);
      AdmittedUrlsDistinct(earlier);
      AdmittedIsSubsequence(earlier);
      UrlsAndKeysOfMembers(earlier);
      if Admitted(anns) != prev {
        forall i | 0 <= i < |prev| ensures prev[i].url != a.url {
          assert prev[i] in earlier;
        }
      }
    }
  }

  /** The keys of the entries are pairwise distinct. */
  lemma {:induction false} AdmittedKeysDistinct(anns: seq<Annotation>)
    ensures forall i, j :: 0 <= i < j < |Admitted(anns)| ==>
              CitationKey(Admitted(anns)[i]) != CitationKey(Admitted(anns)[j])
    decreases |anns|
  {
    if anns != [] {
      var earlier := anns[..|anns| - 1];
      var a := anns[|anns| - 1];
      var prev := Admitted(earlier);
      AdmittedKeysDistinct(earlier);
      UrlsAndKeysOfMembers(prev);
      if Admitted(anns) != prev {
        forall i | 0 <= i < |prev| ensures CitationKey(prev[i]) != CitationKey(a) {
          assert prev[i] in prev;
        }
      }
    }
  }

  /** Every key in the ordinal table maps into 1..n, to the position of
      an entry that carries that key. */
  lemma {:induction false} OrdinalsPointAtEntries(adm: seq<Annotation>)
    ensures PointsAtEntries(adm, Ordinals(adm))
    decreases |adm|
  {
    if adm != [] {
      var n := |adm|;
      var prev := adm[..n - 1];
      OrdinalsPointAtEntries(prev);
      var m, mp := Ordinals(adm), Ordinals(prev);
      forall k | k in m
        ensures 1 <= m[k] <= n && CitationKey(adm[m[k] - 1]) == k
      {
        if k != CitationKey(adm[n - 1]) {
          var o := mp[k];
          assert m[k] == o;
          assert adm[o - 1] == prev[o - 1];
        }
      }
    }
  }

  /** Each key of `m` maps into 1..|adm|, to an entry carrying that key. */
  ghost predicate PointsAtEntries(adm: seq<Annotation>, m: map<string, nat>)
  {
    forall k :: k in m ==> 1 <= m[k] <= |adm| && CitationKey(adm[m[k] - 1]) == k
  }

  /** The key of the j-th entry maps to j + 1 in `m`. */
  ghost predicate FollowsOrder(adm: seq<Annotation>, m: map<string, nat>)
  {
    forall j :: 0 <= j < |adm| ==> CitationKey(adm[j]) in m && m[CitationKey(adm[j])] == j + 1
  }

  /** With pairwise distinct keys, the j-th entry's key maps to j + 1. */
  lemma {:induction false} OrdinalsFollowOrder(adm: seq<Annotation>)
    requires forall i, j :: 0 <= i < j < |adm| ==> CitationKey(adm[i]) != CitationKey(adm[j])
    ensures FollowsOrder(adm, Ordinals(adm))
    decreases |adm|
  {
    if adm != [] {
      var n := |adm|;
      var prev := adm[..n - 1];
      var last := CitationKey(adm[n - 1]);
      OrdinalsFollowOrder(prev);
      var m, mp := Ordinals(adm), Ordinals(prev);
      forall j | 0 <= j < n
        ensures CitationKey(adm[j]) in m && m[CitationKey(adm[j])] == j + 1
      {
        if j < n - 1 {
          var k := CitationKey(prev[j]);
          assert adm[j] == prev[j];
          assert k != last;
          assert k in mp && mp[k] == j + 1;
        }
      }
    }
  }

  /** The ordinal table numbers the entries 1..n in order: each key in
      the table maps into 1..n, to the entry carrying it, and the j-th
      entry's key maps to j + 1. */
  ghost predicate NumberedInOrder(adm: seq<Annotation>, m: map<string, nat>)
  {
    PointsAtEntries(adm, m) && FollowsOrder(adm, m)
  }

  /** The ordinal table of the citations actually registered: contiguous
      1-based ordinals in first-registration order, one per entry. */
  lemma OrdinalsContiguous(anns: seq<Annotation>)
    ensures NumberedInOrder(Admitted(anns), Ordinals(Admitted(anns)))
  {
    AdmittedKeysDistinct(anns);
    OrdinalsPointAtEntries(Admitted(anns));
    OrdinalsFollowOrder(Admitted(anns));
  }

  /** One more annotation: its URL joins the seen URLs, and the admitted
      annotations grow by it exactly when both its URL and its key are new. */
  lemma AdmittedStep(anns: seq<Annotation>, i: nat)
    requires i < |anns|
    ensures Urls(anns[..i + 1]) == Urls(anns[..i]) + {anns[i].url}
    ensures Admitted(anns[..i + 1])
            == if anns[i].url !in Urls(anns[..i]) && CitationKey(anns[i]) !in Keys(Admitted(anns[..i]))
               then Admitted(anns[..i]) + [anns[i]]
               else Admitted(anns[..i])
  {
    assert anns[..i + 1] == anns[..i] + [anns[i]];
    assert anns[..i + 1][..i] == anns[..i];
  }

  lemma OrdinalsAppend(adm: seq<Annotation>, a: Annotation)
    ensures Ordinals(adm + [a]) == Ordinals(adm)[CitationKey(a) := |adm| + 1]
  {
    assert (adm + [a])[..|adm|] == adm;
  }

  lemma KeysAppend(adm: seq<Annotation>, a: Annotation)
    ensures Keys(adm + [a]) == Keys(adm) + {CitationKey(a)}
  {
    assert (adm + [a])[..|adm|] == adm;
  }

  lemma RenderedAppend(adm: seq<Annotation>, a: Annotation)
    ensures Rendered(adm + [a]) == Rendered(adm) + [Render(a)]
  {
  }

  /** Registering one more admitted citation keeps the table, its keys and
      the entry list in step with the admitted annotations. */
  lemma RegisterStep(adm: seq<Annotation>, a: Annotation, ordinals: map<string, nat>, entries: seq<string>)
    requires ordinals == Ordinals(adm) && ordinals.Keys == Keys(adm) && entries == Rendered(adm)
    ensures ordinals[CitationKey(a) := |entries| + 1] == Ordinals(adm + [a])
    ensures ordinals[CitationKey(a) := |entries| + 1].Keys == Keys(adm + [a])
    ensures entries + [Render(a)] == Rendered(adm + [a])
  {
    OrdinalsAppend(adm, a);
    KeysAppend(adm, a);
    RenderedAppend(adm, a);
  }

  /** The citation registry loop: walks the annotations in order keeping
      the set of seen URLs, the key-to-ordinal table and the list of
      rendered entries. Every URL ends up seen, and the table and list are
      those of the admitted annotations. */
  method RegisterCitations(anns: seq<Annotation>)
    returns (seen: set<string>, ordinals: map<string, nat>, entries: seq<string>)
    ensures seen == Urls(anns)
    ensures ordinals == Ordinals(Admitted(anns))
    ensures entries == Rendered(Admitted(anns))
  {
    seen, ordinals, entries := {}, map[], [];
    ghost var adm: seq<Annotation> := [];
    var i := 0;
    while i < |anns|
      invariant 0 <= i <= |anns|
      invariant adm == Admitted(anns[..i])
      invariant seen == Urls(anns[..i])
      invariant ordinals == Ordinals(adm)
      invariant ordinals.Keys == Keys(adm)
      invariant entries == Rendered(adm)
    {
      var ann := anns[i];
      var url := ann.url;
      AdmittedStep(anns, i);
      if url !in seen {
        var key := CitationKey(ann);
        if key !in ordinals {
          var ordinal := |entries| + 1;
          RegisterStep(adm, ann, ordinals, entries);
          ordinals := ordinals[key := ordinal];
          entries := entries + [Render(ann)];
          adm := adm + [ann];
        }
        seen := seen + {url};
      }
      i := i + 1;
    }
    assert anns[..i] == anns;
  }

  /** Four annotations exercising the subtle cases: a repeated URL under a
      new key, a new URL under an already registered key, and an empty
      span with an empty title. */
  function ExampleAnnotations(): seq<Annotation>
  {
    [Annotation("k1", "u1", Some("T")), Annotation("k2", "u1", None),
     Annotation("k1", "u2", None), Annotation("", "u3", Some(""))]
  }

  /** On the example, only the first and the last annotation are admitted,
      yet every URL is seen. */
  lemma ExampleAdmitted()
    ensures Admitted(ExampleAnnotations()) == [ExampleAnnotations()[0], ExampleAnnotations()[3]]
    ensures Urls(ExampleAnnotations()) == {"u1", "u2", "u3"}
  {
    var anns := ExampleAnnotations();
    var a0, a1, a2, a3 := anns[0], anns[1], anns[2], anns[3];
    assert [a0][..0] == [];
    assert Admitted([a0]) == [a0];
    assert Urls([a0]) == {"u1"};
    SeenUrlAddsNothing([a0], a1);
    assert [a0] + [a1] == [a0, a1];
    assert Keys([a0]) == {"k1"};
    RegisteredKeyAddsNothing([a0, a1], a2);
    assert [a0, a1] + [a2] == [a0, a1, a2];
    assert [a0, a1, a2, a3][..3] == [a0, a1, a2];
    assert Urls([a0, a1]) == {"u1"} by {
      assert [a0, a1][..1] == [a0];
    }
    assert Urls([a0, a1, a2]) == {"u1", "u2"};
    assert CitationKey(a3) == "fallback_u3";
    assert anns == [a0, a1, a2, a3];
  }

  /** The rendered entries of the example: the title where there is one,
      the URL in place of an empty title. */
  lemma ExampleEntries()
    ensures Rendered(Admitted(ExampleAnnotations())) == ["[T](u1)", "[u3](u3)"]
  {
    ExampleAdmitted();
    assert Render(ExampleAnnotations()[0]) == "[T](u1)";
    assert Render(ExampleAnnotations()[3]) == "[u3](u3)";
  }

  /** One line of the citation list: `"<ordinal>. <entry>\n"`. */
  function Line(ordinal: nat, entry: string): string
  {
    NatToString(ordinal) + ". " + entry + "\n"
  }

  /** The lines for `entries`, numbered from `first` upwards. */
  function LinesFrom(first: nat, entries: seq<string>): string
    decreases |entries|
  {
    if entries == [] then "" else Line(first, entries[0]) + LinesFrom(first + 1, entries[1..])
  }

  /** The numbered citation list, starting at 1. */
  function NumberedList(entries: seq<string>): string
  {
    LinesFrom(1, entries)
  }

  /** Numbering a concatenation continues where the first part stopped. */
  lemma {:induction false} LinesFromConcat(first: nat, a: seq<string>, b: seq<string>)
    ensures LinesFrom(first, a + b) == LinesFrom(first, a) + LinesFrom(first + |a|, b)
    decreases |a|
  {
    if a == [] {
      assert a + b == b;
    } else {
      assert (a + b)[1..] == a[1..] + b;
      LinesFromConcat(first + 1, a[1..], b);
    }
  }

  /** Appending an entry appends its line, numbered one past the list. */
  lemma NumberedListAppend(entries: seq<string>, e: string)
    ensures NumberedList(entries + [e]) == NumberedList(entries) + Line(|entries| + 1, e)
  {
    LinesFromConcat(1, entries, [e]);
    assert LinesFrom(|entries| + 1, [e]) == Line(|entries| + 1, e) + LinesFrom(|entries| + 2, []);
  }

  /** The j-th entry (from 0) is printed on its own line with ordinal
      j + 1, after the lines of the entries before it. */
  lemma NumberedListAt(entries: seq<string>, j: nat)
    requires j < |entries|
    ensures NumberedList(entries)
            == NumberedList(entries[..j]) + Line(j + 1, entries[j]) + LinesFrom(j + 2, entries[j + 1..])
  {
    assert entries == entries[..j] + entries[j..];
    LinesFromConcat(1, entries[..j], entries[j..]);
  }

  /** Every segment stripped of surrounding whitespace. */
  function StrippedSegments(segments: seq<string>): (r: seq<string>)
    decreases |segments|
  {
    if segments == [] then []
    else StrippedSegments(segments[..|segments| - 1]) + [Strip(segments[|segments| - 1])]
  }

  /** The answer text: the stripped segments joined with one blank line. */
  function SummaryBody(segments: seq<string>): string
  {
    Join("\n\n", StrippedSegments(segments))
  }

  /** Each further segment is separated from the text before it by exactly
      one blank line. */
  lemma SummaryBodyAppend(segments: seq<string>, s: string)
    requires segments != []
    ensures SummaryBody(segments + [s]) == SummaryBody(segments) + "\n\n" + Strip(s)
  {
    assert (segments + [s])[..|segments|] == segments;
    assert StrippedSegments(segments) != [];
    JoinAppend("\n\n", StrippedSegments(segments), Strip(s));
  }

  /** The whole summary file. */
  function SummaryText(m: Message): string
  {
    SummaryBody(m.segments)
    + if m.annotations == [] then ""
      else CitationsHeader + NumberedList(Rendered(Admitted(m.annotations)))
  }

  /** The citations section appears exactly when the message carries
      annotations. */
  lemma CitationsSectionIff(m: Message)
    ensures SummaryText(m) == SummaryBody(m.segments) <==> m.annotations == []
    ensures m.annotations != [] ==>
              SummaryText(m) == SummaryBody(m.segments) + CitationsHeader
                                + NumberedList(Rendered(Admitted(m.annotations)))
  {
  }

  /** The loop writing the citation list: one line per entry, numbered
      from 1 in list order. */
  method WriteNumberedList(entries: seq<string>) returns (out: string)
    ensures out == NumberedList(entries)
  {
    out := "";
    var i := 0;
    while i < |entries|
      invariant 0 <= i <= |entries|
      invariant out == NumberedList(entries[..i])
    {
      NumberedListAppend(entries[..i], entries[i]);
      assert entries[..i + 1] == entries[..i] + [entries[i]];
      out := out + Line(i + 1, entries[i]);
      i := i + 1;
    }
    assert entries[..i] == entries;
  }

  /** `create_summary`: writes the body, then, when there are annotations,
      the header and one numbered line per registered citation. */
  method CreateSummary(m: Message) returns (out: string)
    ensures out == SummaryText(m)
  {
    out := SummaryBody(m.segments);
    if m.annotations != [] {
      var _, _, entries := RegisterCitations(m.annotations);
      var lines := WriteNumberedList(entries);
      out := out + CitationsHeader + lines;
    }
  }
}
