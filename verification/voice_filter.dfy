/**
 The voice catalog record and the free-text search of the voice selection
 dialog: a voice stays in the list when its name, its language or one of its
 tags contains the search text, both sides lower-cased.
 */
module VoiceFilter {
  import opened Text
  import opened Subsequences

  datatype Gender = Male | Female

  /** One catalog entry. `avatar` is an image URL and `age` a free-text label. */
  datatype Voice = Voice(
    id: string,
    name: string,
    gender: Gender,
    avatar: string,
    age: string,
    language: string,
    tags: seq<string>)

  /** `tags.some(tag => tag.toLowerCase().includes(q))`, where `q` is already lower-cased. */
  predicate SomeTagIncludes(tags: seq<string>, q: string)
    decreases |tags|
  {
    |tags| > 0 && (Includes(ToLower(tags[0]), q) || SomeTagIncludes(tags[1..], q))
  }

  /** The search predicate applied to each voice. */
  predicate Matches(v: Voice, search: string) {
    var q := ToLower(search);
    Includes(ToLower(v.name), q) || Includes(ToLower(v.language), q) || SomeTagIncludes(v.tags, q)
  }

  /** The voices shown for a search, in catalog order. */
  function Filter(voices: seq<Voice>, search: string): (r: seq<Voice>)
    ensures IsSubsequence(r, voices)
    ensures forall v :: v in r <==> v in voices && Matches(v, search)
    decreases |voices|
  {
    if |voices| == 0 then []
    else
      var rest := Filter(voices[1..], search);
      assert forall v :: v in voices <==> v == voices[0] || v in voices[1..];
      if Matches(voices[0], search) then [voices[0]] + rest else rest
  }

  /** Every matching catalog voice is kept as often as the catalog holds it; every other voice is dropped. */
  lemma {:induction false} FilterCounts(voices: seq<Voice>, search: string)
    ensures forall v :: multiset(Filter(voices, search))[v] == if Matches(v, search) then multiset(voices)[v] else 0
    decreases |voices|
  {
    if |voices| > 0 {
      FilterCounts(voices[1..], search);
      assert voices == [voices[0]] + voices[1..];
    }
  }

  /** `some` over the tags is the existential the search promises: one tag, lower-cased, contains `q`. */
  lemma {:induction false} SomeTagIncludesIff(tags: seq<string>, q: string)
    ensures SomeTagIncludes(tags, q) <==> exists k :: 0 <= k < |tags| && Includes(ToLower(tags[k]), q)
    decreases |tags|
  {
    if |tags| > 0 {
      SomeTagIncludesIff(tags[1..], q);
      if exists k :: 0 <= k < |tags| && Includes(ToLower(tags[k]), q) {
        var k :| 0 <= k < |tags| && Includes(ToLower(tags[k]), q);
        if k > 0 {
          assert tags[1..][k - 1] == tags[k];
        }
      }
      if SomeTagIncludes(tags[1..], q) {
        var k :| 0 <= k < |tags[1..]| && Includes(ToLower(tags[1..][k]), q);
        assert tags[k + 1] == tags[1..][k];
      }
    }
  }

  /** A voice is shown iff its lower-cased name, language or some lower-cased tag contains the lower-cased search. */
  lemma ShownIff(voices: seq<Voice>, search: string, v: Voice)
    requires v in voices
    ensures v in Filter(voices, search) <==>
      || Includes(ToLower(v.name), ToLower(search))
      || Includes(ToLower(v.language), ToLower(search))
      || exists k :: 0 <= k < |v.tags| && Includes(ToLower(v.tags[k]), ToLower(search))
  {
    SomeTagIncludesIff(v.tags, ToLower(search));
  }

  /** Typing a voice's name in any capitalisation shows that voice. */
  lemma NameFindsVoice(voices: seq<Voice>, v: Voice, search: string)
    requires v in voices
    requires ToLower(search) == ToLower(v.name)
    ensures v in Filter(voices, search)
  {
    assert Includes(ToLower(v.name), ToLower(search));
  }

  /** The empty search keeps the whole catalog, in order. */
  lemma {:induction false} FilterEmptySearch(voices: seq<Voice>)
    ensures Filter(voices, "") == voices
    decreases |voices|
  {
    if |voices| > 0 {
      IncludesEmpty(ToLower(voices[0].name));
      FilterEmptySearch(voices[1..]);
      assert voices == [voices[0]] + voices[1..];
    }
  }

  /** The search is read only through its lower-cased form. */
  lemma {:induction false} FilterCaseInsensitive(voices: seq<Voice>, s1: string, s2: string)
    requires ToLower(s1) == ToLower(s2)
    ensures Filter(voices, s1) == Filter(voices, s2)
    decreases |voices|
  {
    if |voices| > 0 {
      FilterCaseInsensitive(voices[1..], s1, s2);
    }
  }

  /** Filtering a filtered list again with the same search changes nothing. */
  lemma {:induction false} FilterIdempotent(voices: seq<Voice>, search: string)
    ensures Filter(Filter(voices, search), search) == Filter(voices, search)
    decreases |voices|
  {
    if |voices| > 0 {
      FilterIdempotent(voices[1..], search);
      var rest := Filter(voices[1..], search);
      if Matches(voices[0], search) {
        assert ([voices[0]] + rest)[1..] == rest;
      }
    }
  }

  /** A voice that contains the longer search also contains any search inside it. */
  lemma MatchesNarrow(v: Voice, s1: string, s2: string)
    requires Includes(ToLower(s2), ToLower(s1))
    requires Matches(v, s2)
    ensures Matches(v, s1)
  {
    var q1, q2 := ToLower(s1), ToLower(s2);
    if Includes(ToLower(v.name), q2) {
      IncludesTransitive(ToLower(v.name), q2, q1);
    } else if Includes(ToLower(v.language), q2) {
      IncludesTransitive(ToLower(v.language), q2, q1);
    } else {
      SomeTagIncludesIff(v.tags, q2);
      SomeTagIncludesIff(v.tags, q1);
      var k :| 0 <= k < |v.tags| && Includes(ToLower(v.tags[k]), q2);
      IncludesTransitive(ToLower(v.tags[k]), q2, q1);
    }
  }

  /** A search that contains another search (both lower-cased) shows a subsequence of what the other shows. */
  lemma {:induction false} FilterMonotone(voices: seq<Voice>, s1: string, s2: string)
    requires Includes(ToLower(s2), ToLower(s1))
    ensures IsSubsequence(Filter(voices, s2), Filter(voices, s1))
    decreases |voices|
  {
    if |voices| > 0 {
      var v := voices[0];
      var r1, r2 := Filter(voices[1..], s1), Filter(voices[1..], s2);
      FilterMonotone(voices[1..], s1, s2);
      if Matches(v, s2) {
        MatchesNarrow(v, s1, s2);
        assert ([v] + r2)[1..] == r2 && ([v] + r1)[1..] == r1;
      } else if Matches(v, s1) {
        assert ([v] + r1)[1..] == r1;
        if |r2| > 0 {
          assert IsSubsequence(r2, ([v] + r1)[1..]);
        }
      }
    }
  }

  /** Typing more characters after the search never brings a voice back. */
  lemma TypingNarrows(voices: seq<Voice>, search: string, more: string)
    ensures IsSubsequence(Filter(voices, search + more), Filter(voices, search))
  {
    ToLowerAppend(search, more);
    IncludesPrefix(ToLower(search), ToLower(more));
    FilterMonotone(voices, search, search + more);
  }

  /** No two catalog entries share an id. */
  predicate UniqueIds(voices: seq<Voice>) {
    forall i, j :: 0 <= i < j < |voices| ==> voices[i].id != voices[j].id
  }

  /** The shown list keeps the catalog's ids unique. */
  lemma {:induction false} FilterKeepsUniqueIds(voices: seq<Voice>, search: string)
    requires UniqueIds(voices)
    ensures UniqueIds(Filter(voices, search))
    decreases |voices|
  {
    if |voices| > 0 {
      var rest := Filter(voices[1..], search);
      FilterKeepsUniqueIds(voices[1..], search);
      if Matches(voices[0], search) {
        var r := [voices[0]] + rest;
        forall i, j | 0 <= i < j < |r|
          ensures r[i].id != r[j].id
        {
          if i == 0 {
            assert r[j] in voices[1..];
            var m :| 0 <= m < |voices[1..]| && voices[1..][m] == r[j];
            assert voices[m + 1] == r[j];
          } else {
            assert r[i] == rest[i - 1] && r[j] == rest[j - 1];
          }
        }
      }
    }
  }
}

/** The worked example of the voice search: a catalog of one English voice called Amelia, tagged "Calm". */
module VoiceFilterExample {
  import opened Text
  import opened VoiceFilter

  /** A field with no 'z' or 'Z' does not contain a lower-cased query that starts with 'z'. */
  lemma NoZExcludes(field: string, q: string)
    requires 'z' !in field && 'Z' !in field
    requires |q| > 0 && ToLower(q)[0] == 'z'
    ensures !Includes(ToLower(field), ToLower(q))
  {
    MissingCharExcludes(ToLower(field), ToLower(q));
  }

  /** A voice none of whose fields has a 'z' or 'Z' is not matched by a query starting with 'z'. */
  lemma NoZNoMatch(v: Voice, q: string)
    requires 'z' !in v.name && 'Z' !in v.name
    requires 'z' !in v.language && 'Z' !in v.language
    requires forall k :: 0 <= k < |v.tags| ==> 'z' !in v.tags[k] && 'Z' !in v.tags[k]
    requires |q| > 0 && ToLower(q)[0] == 'z'
    ensures !Matches(v, q)
  {
    NoZExcludes(v.name, q);
    NoZExcludes(v.language, q);
    forall k | 0 <= k < |v.tags|
      ensures !Includes(ToLower(v.tags[k]), ToLower(q))
    {
      NoZExcludes(v.tags[k], q);
    }
    SomeTagIncludesIff(v.tags, ToLower(q));
  }

  /** "amelia" in any capitalisation finds the voice. */
  lemma AmeliaFound(v: Voice, q: string)
    requires v.name == "Amelia"
    requires ToLower(q) == "amelia"
    ensures Filter([v], q) == [v]
  {
    assert ToLower(v.name) == "amelia";
    NameFindsVoice([v], v, q);
  }

  /** "zzz" finds nothing, so the dialog shows its empty state. */
  lemma NothingFound(v: Voice, q: string)
    requires v.name == "Amelia" && v.language == "English" && v.tags == ["Calm"]
    requires q == "zzz"
    ensures Filter([v], q) == []
  {
    NoZNoMatch(v, q);
    assert [v][1..] == [];
  }
}
