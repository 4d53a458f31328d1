/** The search box, `on_search` (NoitaModManager.py:474-549), and the tag cloud click,
    `add_tag_to_search` (NoitaModManager.py:575-580). A query is lower-cased and trimmed,
    then split on whitespace into terms that must all hold. A term starting with `-` is
    negated. A term is a `|`-separated list of alternatives, of which one must hold. An
    alternative `#x` asks for a tag containing `x`, `@x` for a name containing `x`, and a
    plain `x` for either. */
module Query {
  import opened Text
  import opened Records

  /** `mod.get('_display_name', mod['name'])`. */
  function ShownName(r: Record): string
    requires Named(r)
  {
    if DisplayKey in r && r[DisplayKey].Str? then r[DisplayKey].s else NameOf(r)
  }

  /** The name an alternative is matched against, lower-cased. */
  function SearchName(r: Record): string
    requires Named(r)
  {
    Lower(ShownName(r))
  }

  /** `[t.lower().strip() for t in user_tags + workshop_tags]`. */
  function SearchTags(r: Record): (ts: seq<string>)
    ensures |ts| == |TagList(r, UserTagsKey) + TagList(r, WorkshopTagsKey)|
    ensures forall i :: 0 <= i < |ts| ==> ts[i] == Strip(Lower((TagList(r, UserTagsKey) + TagList(r, WorkshopTagsKey))[i]))
  {
    var all := TagList(r, UserTagsKey) + TagList(r, WorkshopTagsKey);
    seq(|all|, i requires 0 <= i < |all| => Strip(Lower(all[i])))
  }

  /** `any(x in t for t in tags)`. */
  predicate SomeTagContains(tags: seq<string>, x: string) {
    exists i :: 0 <= i < |tags| && Contains(tags[i], x)
  }

  /** One alternative of a term. */
  predicate SubTermMatches(r: Record, sub: string)
    requires Named(r)
  {
    if |sub| > 0 && sub[0] == '#' then SomeTagContains(SearchTags(r), sub[1..])
    else if |sub| > 0 && sub[0] == '@' then Contains(SearchName(r), sub[1..])
    else Contains(SearchName(r), sub) || SomeTagContains(SearchTags(r), sub)
  }

  /** Some alternative, trimmed, is non-blank and matches. */
  predicate AnyAlternative(r: Record, subs: seq<string>)
    requires Named(r)
  {
    subs != [] &&
    ((Strip(subs[0]) != [] && SubTermMatches(r, Strip(subs[0]))) || AnyAlternative(r, subs[1..]))
  }

  /** Some non-blank alternative of `body`, trimmed, matches. */
  predicate TermMatches(r: Record, body: string)
    requires Named(r)
  {
    AnyAlternative(r, SplitOn(body, '|'))
  }

  /** One term: a negated term holds when its body does not match; a bare `-` holds. */
  predicate TermAccepts(r: Record, term: string)
    requires Named(r)
  {
    if |term| > 0 && term[0] == '-' then term[1..] == [] || !TermMatches(r, term[1..])
    else TermMatches(r, term)
  }

  /** `query.lower().strip().split()`. */
  function Terms(query: string): seq<string> {
    Words(Strip(Lower(query)))
  }

  /** Every term holds. */
  predicate AcceptsTerms(r: Record, terms: seq<string>)
    requires Named(r)
  {
    forall k :: 0 <= k < |terms| ==> TermAccepts(r, terms[k])
  }

  /** A record the query keeps. */
  predicate Accepts(r: Record, query: string)
    requires Named(r)
  {
    AcceptsTerms(r, Terms(query))
  }

  /** For each record, whether every term holds. */
  function Verdicts(mods: seq<Record>, terms: seq<string>): (v: seq<bool>)
    requires AllNamed(mods)
    ensures |v| == |mods| && forall i :: 0 <= i < |mods| ==> v[i] == AcceptsTerms(mods[i], terms)
  {
    seq(|mods|, i requires 0 <= i < |mods| && Named(mods[i]) => AcceptsTerms(mods[i], terms))
  }

  /** The rows among the first `n` records that every term keeps, in order. */
  function MatchingRows(mods: seq<Record>, terms: seq<string>, n: nat): seq<nat>
    requires n <= |mods| && AllNamed(mods)
  {
    RowsWhere(Verdicts(mods, terms), n)
  }

  /** The kept rows are ascending rows below `n`, and a row is kept exactly when every
      term accepts its record. */
  lemma MatchingRowsSpec(mods: seq<Record>, terms: seq<string>, n: nat)
    requires n <= |mods| && AllNamed(mods)
    ensures Rows(MatchingRows(mods, terms, n), n)
    ensures forall i :: 0 <= i < n ==> (i in MatchingRows(mods, terms, n) <==> AcceptsTerms(mods[i], terms))
  {
    RowsWhereAscending(Verdicts(mods, terms), n);
    RowsWhereMembers(Verdicts(mods, terms), n);
  }

  /** The generator `any(x in t for t in tags)`. */
  method AnyTagContains(tags: seq<string>, x: string) returns (b: bool)
    ensures b == SomeTagContains(tags, x)
  {
    for i := 0 to |tags|
      invariant forall j :: 0 <= j < i ==> !Contains(tags[j], x)
    {
      if Contains(tags[i], x) {
        return true;
      }
    }
    return false;
  }

  /** One alternative, as the three branches of the inner loop test it. */
  method SubTermMatch(r: Record, sub: string) returns (b: bool)
    requires Named(r)
    ensures b == SubTermMatches(r, sub)
  {
    if |sub| > 0 && sub[0] == '#' {
      b := AnyTagContains(SearchTags(r), sub[1..]);
    } else if |sub| > 0 && sub[0] == '@' {
      b := Contains(SearchName(r), sub[1..]);
    } else {
      b := Contains(SearchName(r), sub);
      if !b {
        b := AnyTagContains(SearchTags(r), sub);
      }
    }
  }

  /** The loop over the `|`-separated alternatives, stopping at the first match. */
  method TermMatch(r: Record, body: string) returns (matchAny: bool)
    requires Named(r)
    ensures matchAny == TermMatches(r, body)
  {
    var subs := SplitOn(body, '|');
    matchAny := false;
    var k := 0;
    while k < |subs| && !matchAny
      invariant 0 <= k <= |subs|
      invariant AnyAlternative(r, subs) == (matchAny || AnyAlternative(r, subs[k..]))
    {
      assert subs[k..][1..] == subs[k + 1..];
      var sub := Strip(subs[k]);
      if sub != [] {
        matchAny := SubTermMatch(r, sub);
      }
      k := k + 1;
    }
  }

  /** The loop over the terms for one record, stopping at the first term that fails. */
  method RecordMatches(r: Record, terms: seq<string>) returns (matchAll: bool)
    requires Named(r)
    ensures matchAll == AcceptsTerms(r, terms)
  {
    matchAll := true;
    for k := 0 to |terms|
      invariant matchAll
      invariant forall j :: 0 <= j < k ==> TermAccepts(r, terms[j])
    {
      var term := terms[k];
      var isNegation := |term| > 0 && term[0] == '-';
      if isNegation {
        term := term[1..];
        if term == [] {
          continue;
        }
      }
      var matchAny := TermMatch(r, term);
      if isNegation == matchAny {
        matchAll := false;
        break;
      }
    }
  }

  /** `on_search`: the rows of `mods` the query keeps. */
  method Search(mods: seq<Record>, query: string) returns (rows: seq<nat>)
    requires AllNamed(mods)
    ensures rows == MatchingRows(mods, Terms(query), |mods|)
  {
    var q := Strip(Lower(query));
    if q == [] {
      rows := AllRows(|mods|);
      BlankMatchesAll(mods, query, |mods|);
      return;
    }
    rows := KeepMatching(mods, Words(q));
  }

  /** The loop over the records, keeping the rows every term accepts. */
  method KeepMatching(mods: seq<Record>, terms: seq<string>) returns (rows: seq<nat>)
    requires AllNamed(mods)
    ensures rows == MatchingRows(mods, terms, |mods|)
  {
    rows := [];
    for i := 0 to |mods|
      invariant rows == MatchingRows(mods, terms, i)
    {
      var matchAll := RecordMatches(mods[i], terms);
      if matchAll {
        rows := rows + [i];
      }
    }
  }

  /** A blank query keeps every record, in order. */
  lemma {:induction false} BlankMatchesAll(mods: seq<Record>, query: string, n: nat)
    requires n <= |mods| && AllNamed(mods)
    requires Strip(Lower(query)) == []
    ensures MatchingRows(mods, Terms(query), n) == AllRows(n)
  {
    assert Terms(query) == [];
    if n > 0 {
      BlankMatchesAll(mods, query, n - 1);
      assert AcceptsTerms(mods[n - 1], []);
      assert AllRows(n) == AllRows(n - 1) + [n - 1];
    }
  }

  /** Alternatives that are all empty never match. */
  lemma {:induction false} EmptyAlternatives(r: Record, subs: seq<string>)
    requires Named(r)
    requires forall k :: 0 <= k < |subs| ==> subs[k] == []
    ensures !AnyAlternative(r, subs)
  {
    if subs != [] {
      assert Strip(subs[0]) == [];
      EmptyAlternatives(r, subs[1..]);
    }
  }

  /** A term without `|` that is already trimmed is its own single alternative. */
  lemma SingleAlternative(r: Record, body: string)
    requires Named(r)
    requires body != [] && Stripped(body) && '|' !in body
    ensures TermMatches(r, body) == SubTermMatches(r, body)
  {
    SplitOnWithoutSeparator(body, '|');
    StripKeepsStripped(body);
    assert [body][1..] == [];
    assert !AnyAlternative(r, []);
    assert AnyAlternative(r, [body]) == SubTermMatches(r, body);
  }

  /** A term made only of `|` has no alternative left after trimming, so it rejects every
      record; negated, it keeps every record. */
  lemma PipeOnlyTerm(r: Record, term: string)
    requires Named(r)
    requires term != [] && forall i :: 0 <= i < |term| ==> term[i] == '|'
    ensures !TermAccepts(r, term)
    ensures TermAccepts(r, ['-'] + term)
  {
    SplitOnOnlySeparators(term, '|');
    EmptyAlternatives(r, SplitOn(term, '|'));
    assert (['-'] + term)[1..] == term;
  }

  /** A bare `@` asks for a name containing the empty string: every record. */
  lemma BareAtAcceptsAll(r: Record)
    requires Named(r)
    ensures TermAccepts(r, "@")
  {
    SingleAlternative(r, "@");
    assert "@"[1..] == [];
    ContainsEmpty(SearchName(r));
  }

  /** A bare `#` asks for a tag containing the empty string: it keeps exactly the records
      that have at least one tag. */
  lemma HashAloneNeedsSomeTag(r: Record)
    requires Named(r)
    ensures TermAccepts(r, "#") <==> TagList(r, UserTagsKey) + TagList(r, WorkshopTagsKey) != []
  {
    SingleAlternative(r, "#");
    assert "#"[1..] == [];
    var ts := SearchTags(r);
    assert TermAccepts(r, "#") == SomeTagContains(ts, []);
    if ts != [] {
      ContainsEmpty(ts[0]);
    }
  }

  /** `add_tag_to_search`: appends `#tag` to the trimmed search text, separated by a
      space, unless the trimmed text already contains it. */
  function AddTagToSearch(search: string, tag: string): (q: string)
    ensures Contains(q, "#" + tag)
    ensures Contains(Strip(search), "#" + tag) ==> q == search
    ensures !Contains(Strip(search), "#" + tag) ==>
              var current := Strip(search);
              var gap := if current != [] then 1 else 0;
              |q| == |current| + gap + 1 + |tag| && q[..|current|] == current &&
              (current != [] ==> q[|current|] == ' ') && q[|current| + gap..] == "#" + tag
  {
    var current := Strip(search);
    var tagStr := "#" + tag;
    if Contains(current, tagStr) then
      ContainsStripped(search, tagStr);
      search
    else
      ContainsSuffix(if current != [] then current + " " else [], tagStr);
      (if current != [] then current + " " else []) + tagStr
  }

  /** Clicking the same cloud tag twice changes the search text once. */
  lemma AddTagTwice(search: string, tag: string)
    requires tag != [] && Stripped(tag)
    ensures AddTagToSearch(AddTagToSearch(search, tag), tag) == AddTagToSearch(search, tag)
  {
    var current := Strip(search);
    var tagStr := "#" + tag;
    if !Contains(current, tagStr) {
      var q := AddTagToSearch(search, tag);
      var prefix := if current != [] then current + " " else [];
      assert q == prefix + tagStr;
      StripIsStripped(search);
      AppendedTagStripped(current, tag);
      StripKeepsStripped(q);
      ContainsSuffix(prefix, tagStr);
    }
  }

  /** The search text after a cloud click has no surrounding whitespace. */
  lemma AppendedTagStripped(current: string, tag: string)
    requires Stripped(current) && tag != [] && Stripped(tag)
    ensures Stripped((if current != [] then current + " " else []) + ("#" + tag))
  {
    var prefix := if current != [] then current + " " else [];
    var q := prefix + ("#" + tag);
    assert q[|q| - 1] == tag[|tag| - 1];
    if current != [] {
      assert q[0] == current[0];
    } else {
      assert q[0] == '#';
    }
  }

  /** Lower-casing keeps whitespace where it was, and adds no `|`. */
  lemma LowerKeepsSpaces(s: string)
    ensures forall i :: 0 <= i < |s| ==> (IsSpace(Lower(s)[i]) <==> IsSpace(s[i]))
    ensures '|' !in s ==> '|' !in Lower(s)
  {
    if '|' in Lower(s) {
      var i :| 0 <= i < |s| && Lower(s)[i] == '|';
      assert s[i] == '|';
    }
  }

  /** A query that is one word after lower-casing is a single term. */
  lemma OneWordQuery(query: string)
    requires IsWord(query)
    ensures IsWord(Lower(query)) && Terms(query) == [Lower(query)]
  {
    LowerKeepsSpaces(query);
    var lq := Lower(query);
    assert IsWord(lq);
    StripKeepsStripped(lq);
    WordsOfOneWord(lq);
  }

  /** `"#" + tag` lower-cased. */
  lemma LowerHashTag(tag: string)
    ensures Lower("#" + tag) == "#" + Lower(tag)
  {
    var q := "#" + tag;
    assert forall i :: 0 < i < |q| ==> Lower(q)[i] == Lower(tag)[i - 1];
  }

  /** `#` followed by a lower-cased single word without `|` is one trimmed alternative. */
  lemma HashTermShape(tag: string)
    requires IsWord(tag) && '|' !in tag
    ensures var lq := "#" + Lower(tag);
            lq != [] && Stripped(lq) && '|' !in lq && lq[1..] == Lower(tag) && Strip(Lower(tag)) == Lower(tag)
  {
    var lt := Lower(tag);
    var lq := "#" + lt;
    LowerKeepsSpaces(tag);
    assert IsWord(lt);
    assert lq[0] == '#' && lq[|lq| - 1] == lt[|lt| - 1];
    assert '|' !in lq by {
      assert forall i :: 0 < i < |lq| ==> lq[i] == lt[i - 1];
    }
    assert lq[1..] == lt;
    StripKeepsStripped(lt);
  }

  /** A carried tag, lower-cased, is found among the record's search tags. */
  lemma CarriedTagFound(r: Record, tag: string)
    requires tag in TagList(r, UserTagsKey) + TagList(r, WorkshopTagsKey)
    ensures SomeTagContains(SearchTags(r), Strip(Lower(tag)))
  {
    var all := TagList(r, UserTagsKey) + TagList(r, WorkshopTagsKey);
    var i :| 0 <= i < |all| && all[i] == tag;
    ContainsSelf(SearchTags(r)[i]);
  }

  /** The term `#tag`, lower-cased, holds for a record carrying `tag`. */
  lemma HashTermMatchesTag(r: Record, tag: string)
    requires Named(r)
    requires tag in TagList(r, UserTagsKey) + TagList(r, WorkshopTagsKey)
    requires IsWord(tag) && '|' !in tag
    ensures TermAccepts(r, "#" + Lower(tag))
  {
    var lq := "#" + Lower(tag);
    HashTermShape(tag);
    SingleAlternative(r, lq);
    CarriedTagFound(r, tag);
    assert SubTermMatches(r, lq);
  }

  /** Clicking a tag in an empty search box writes just `#tag`. */
  lemma AddTagToEmptySearch(tag: string)
    ensures AddTagToSearch("", tag) == "#" + tag
  {
    assert Strip("") == [];
  }

  /** The query `#tag` of a single-word tag keeps every record that carries that tag. */
  lemma HashQueryKeepsTagged(r: Record, tag: string)
    requires Named(r)
    requires tag in TagList(r, UserTagsKey) + TagList(r, WorkshopTagsKey)
    requires IsWord(tag) && '|' !in tag
    ensures Accepts(r, "#" + tag)
  {
    var q := "#" + tag;
    assert IsWord(q) by {
      forall i | 0 <= i < |q| ensures !IsSpace(q[i]) { if i > 0 { assert q[i] == tag[i - 1]; } }
    }
    OneWordQuery(q);
    LowerHashTag(tag);
    HashTermMatchesTag(r, tag);
  }

  /** Clicking a single-word cloud tag in an empty search box keeps every record that
      carries that tag. */
  lemma CloudClickKeepsTagged(r: Record, tag: string)
    requires Named(r)
    requires tag in TagList(r, UserTagsKey) + TagList(r, WorkshopTagsKey)
    requires IsWord(tag) && '|' !in tag
    ensures Accepts(r, AddTagToSearch("", tag))
  {
    AddTagToEmptySearch(tag);
    HashQueryKeepsTagged(r, tag);
  }
}
