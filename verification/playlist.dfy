/**
 * The M3U playlist parser `parse_m3u`: it walks the playlist lines with an
 * index, reads a channel from each `#EXTINF:` header and the line after it,
 * and keeps the channels of four countries that pass the category filters.
 */
module Playlist {
  import opened Wrappers
  import opened Selection
  import opened Text
  import opened News

  const HeaderTag := "#EXTINF:"
  /** The literal part of the regex `group-title="([^"]*)"` before the capture. */
  const GroupKey := "group-title=\""
  const Quote := "\""
  /** The display name ends before the first `" tvg-"` after the comma. */
  const NameCut := " tvg-"
  /** The character class of `re.split(r'[|/-]', ...)`. */
  const CategorySeparators: set<char> := {'|', '/', '-'}
  /** Words whose presence in the joined categories drops the entry. */
  const ExcludedWords: seq<string> := ["sport", "kid", "children", "adult", "xxx", "porn"]
  const Countries: set<string> := {"CA", "US", "GB", "AU"}

  /** A country code and the substrings of the group title that select it. */
  datatype CountryRule = CountryRule(code: string, needles: seq<string>)

  /** The country tests in the order they are tried. */
  const CountryRules: seq<CountryRule> := [
    CountryRule("CA", ["Canada", "CA"]),
    CountryRule("US", ["United States", "USA", "US"]),
    CountryRule("GB", ["United Kingdom", "UK", "GB"]),
    CountryRule("AU", ["Australia", "AU"])
  ]

  /** One output row of the parser. */
  datatype Entry = Entry(name: string, country: string, groupTitle: string, url: string)

  predicate IsHeader(line: string)
  {
    StartsWith(line, HeaderTag)
  }

  /**
   * The display name of a header line: the text after its first comma, cut
   * before the first `" tvg-"`, stripped. `None` when there is no comma
   * (where the source's indexing raises).
   */
  function NameOf(header: string): (r: Option<string>)
    ensures r.Some? <==> Contains(header, ",")
    ensures r.Some? ==> !Contains(r.value, NameCut)
    ensures r.Some? && |r.value| > 0 ==> !IsSpace(r.value[0]) && !IsSpace(r.value[|r.value| - 1])
  {
    match AfterFirst(header, ",")
    case None => None
    case Some(rest) =>
      var cut := BeforeFirst(rest, NameCut);
      var name := Strip(cut);
      assert Contains(name, NameCut) ==> Contains(cut, NameCut) by {
        if Contains(name, NameCut) {
          StripContains(cut, NameCut);
        }
      }
      Some(name)
  }

  /**
   * The name read by position: with c the index of the first comma, it is
   * the stripped text from c + 1 up to the first `" tvg-"` after it.
   */
  lemma NameOfText(header: string)
    requires Contains(header, ",")
    ensures var c := Find(header, ",").value;
            c < |header| &&
            NameOf(header) == Some(Strip(BeforeFirst(header[c + 1..], NameCut)))
  {
  }

  /** The capture of `group-title="([^"]*)"` when the regex matches at position p. */
  function GroupMatchAt(line: string, p: nat): Option<string>
  {
    if OccursAt(line, GroupKey, p) && Contains(line[p + |GroupKey|..], Quote)
    then Some(BeforeFirst(line[p + |GroupKey|..], Quote))
    else None
  }

  /** The positions where the group-title pattern matches, as a predicate on positions. */
  function GroupMatches(line: string): nat -> bool
  {
    (p: nat) => GroupMatchAt(line, p).Some?
  }

  /**
   * `re.search(r'group-title="([^"]*)"', line)`: the capture at the first
   * position where the pattern matches, or "" when it matches nowhere.
   */
  function GroupTitle(line: string): (r: string)
    ensures !Contains(r, Quote)
    ensures r != "" ==> Contains(line, GroupKey + r + Quote)
  {
    match FirstWhere(GroupMatches(line), 0, |line| + 1)
    case None => ""
    case Some(p) =>
      CaptureOccurs(line, p);
      GroupMatchAt(line, p).value
  }

  /** A capture sits in the line between `group-title="` and a closing quote. */
  lemma CaptureOccurs(line: string, p: nat)
    requires GroupMatchAt(line, p).Some?
    ensures OccursAt(line, GroupKey + GroupMatchAt(line, p).value + Quote, p)
  {
    var tail := line[p + |GroupKey|..];
    var r := GroupMatchAt(line, p).value;
    var w := GroupKey + r + Quote;
    assert OccursAt(tail, r, 0) && OccursAt(tail, Quote, |r|);
    forall i | 0 <= i < |w|
      ensures p + i < |line| && line[p + i] == w[i]
    {
      if i < |GroupKey| {
        assert line[p..p + |GroupKey|][i] == GroupKey[i];
      } else if i < |GroupKey| + |r| {
        assert tail[..|r|][i - |GroupKey|] == r[i - |GroupKey|];
      } else {
        assert tail[|r|..|r| + 1][0] == '"';
      }
    }
    assert line[p..p + |w|] == w;
  }

  /** The capture read off the first occurrence of `group-title="` alone. */
  function FirstKeyCapture(line: string): string
  {
    match Find(line, GroupKey)
    case None => ""
    case Some(p) =>
      var tail := line[p + |GroupKey|..];
      if Contains(tail, Quote) then BeforeFirst(tail, Quote) else ""
  }

  /**
   * The regex search finds the capture after the first occurrence of
   * `group-title="`: a later occurrence would itself supply the closing
   * quote the first one lacks.
   */
  lemma GroupTitleAtFirstKey(line: string)
    ensures GroupTitle(line) == FirstKeyCapture(line)
  {
    match Find(line, GroupKey)
    case None =>
      NoKeyNoMatch(line);
    case Some(p0) =>
      if Contains(line[p0 + |GroupKey|..], Quote) {
        FirstKeyMatches(line, p0);
      } else {
        UnclosedFirstKeyNoMatch(line, p0);
      }
  }

  /** Without `group-title="` in the line the regex matches nowhere. */
  lemma NoKeyNoMatch(line: string)
    requires !Contains(line, GroupKey)
    ensures GroupTitle(line) == ""
  {
    var g := GroupMatches(line);
    assert forall q: nat :: q <= |line| ==> !g(q);
    FirstWhereNone(g, |line| + 1);
  }

  /** When the first `group-title="` is closed by a quote, the regex matches there. */
  lemma FirstKeyMatches(line: string, p0: nat)
    requires OccursAt(line, GroupKey, p0)
    requires forall q: nat :: q < p0 ==> !OccursAt(line, GroupKey, q)
    requires Contains(line[p0 + |GroupKey|..], Quote)
    ensures GroupTitle(line) == BeforeFirst(line[p0 + |GroupKey|..], Quote)
  {
    var g := GroupMatches(line);
    assert forall q: nat :: q < p0 ==> !g(q);
    assert g(p0);
    FirstWhereIs(g, |line| + 1, p0);
  }

  /** When the first `group-title="` is never closed, no later one can be either. */
  lemma UnclosedFirstKeyNoMatch(line: string, p0: nat)
    requires OccursAt(line, GroupKey, p0)
    requires forall q: nat :: q < p0 ==> !OccursAt(line, GroupKey, q)
    requires !Contains(line[p0 + |GroupKey|..], Quote)
    ensures GroupTitle(line) == ""
  {
    var g := GroupMatches(line);
    forall q: nat
      ensures !g(q)
    {
      if q > p0 && OccursAt(line, GroupKey, q) {
        LaterKeyClosesFirst(line, p0, q);
      }
    }
    FirstWhereNone(g, |line| + 1);
  }

  /** A second `group-title="` after the first puts a quote after the first one's opening quote. */
  lemma LaterKeyClosesFirst(line: string, p0: nat, q: nat)
    requires OccursAt(line, GroupKey, p0) && OccursAt(line, GroupKey, q) && p0 < q
    ensures Contains(line[p0 + |GroupKey|..], Quote)
  {
    var tail := line[p0 + |GroupKey|..];
    WindowChar(line, GroupKey, q, q + 12);
    var t: nat := q + 12 - (p0 + |GroupKey|);
    assert tail[t] == line[q + 12] == '"';
    assert tail[t..t + 1] == Quote;
    assert OccursAt(tail, Quote, t);
  }

  /** `any(x in s for x in needles)`. */
  predicate HitsAny(s: string, needles: seq<string>)
  {
    exists k :: 0 <= k < |needles| && Contains(s, needles[k])
  }

  /**
   * The country of a group title: the code of the first rule, in the order
   * CA, US, GB, AU, one of whose substrings occurs in the title; "" when no
   * rule applies.
   */
  function CountryOf(group: string): (r: string)
    ensures r == "" || r in Countries
    ensures r == "" <==> forall k :: 0 <= k < |CountryRules| ==> !HitsAny(group, CountryRules[k].needles)
    ensures forall k :: 0 <= k < |CountryRules| && CountryRules[k].code == r ==>
              HitsAny(group, CountryRules[k].needles) &&
              forall j :: 0 <= j < k ==> !HitsAny(group, CountryRules[j].needles)
  {
    assert CountryRules[0].needles == ["Canada", "CA"];
    assert CountryRules[1].needles == ["United States", "USA", "US"];
    assert CountryRules[2].needles == ["United Kingdom", "UK", "GB"];
    assert CountryRules[3].needles == ["Australia", "AU"];
    if HitsAny(group, ["Canada", "CA"]) then "CA"
    else if HitsAny(group, ["United States", "USA", "US"]) then "US"
    else if HitsAny(group, ["United Kingdom", "UK", "GB"]) then "GB"
    else if HitsAny(group, ["Australia", "AU"]) then "AU"
    else ""
  }

  /** The category list: the group title split on `|`, `/`, `-`, each part stripped and lower-cased. */
  function Categories(group: string): (cats: seq<string>)
    ensures |cats| >= 1
  {
    var parts := SplitAny(group, CategorySeparators);
    seq(|parts|, k requires 0 <= k < |parts| => Lower(Strip(parts[k])))
  }

  /** A cleaned category: no separator, no upper-case ASCII letter, no whitespace at either end. */
  predicate CleanCategory(c: string)
  {
    && (forall j :: 0 <= j < |c| ==> c[j] !in CategorySeparators && !('A' <= c[j] <= 'Z'))
    && (|c| > 0 ==> !IsSpace(c[0]) && !IsSpace(c[|c| - 1]))
  }

  /**
   * There is one category per `re.split` part, and each is clean: the split
   * removed the separators, `strip()` the surrounding whitespace and
   * `lower()` the capitals.
   */
  lemma CategoriesAreClean(group: string)
    ensures |Categories(group)| == |SplitAny(group, CategorySeparators)|
    ensures forall k :: 0 <= k < |Categories(group)| ==> CleanCategory(Categories(group)[k])
  {
    var parts := SplitAny(group, CategorySeparators);
    forall k | 0 <= k < |parts|
      ensures CleanCategory(Categories(group)[k])
    {
      assert Categories(group)[k] == Lower(Strip(parts[k]));
      CleanPart(parts[k]);
    }
  }

  lemma CleanPart(part: string)
    requires forall j :: 0 <= j < |part| ==> part[j] !in CategorySeparators
    ensures CleanCategory(Lower(Strip(part)))
  {
    var s := Strip(part);
    var lead := LeadingSpaces(part);
    assert s == part[lead..lead + |s|];
    forall j | 0 <= j < |s|
      ensures s[j] !in CategorySeparators
    {
      assert s[j] == part[lead + j];
    }
    var r := Lower(s);
    forall j | 0 <= j < |r|
      ensures r[j] !in CategorySeparators && !('A' <= r[j] <= 'Z')
    {
      assert r[j] == LowerChar(s[j]);
    }
    if |r| > 0 {
      assert r[0] == LowerChar(s[0]) && r[|r| - 1] == LowerChar(s[|s| - 1]);
    }
  }

  /** `" ".join(cats)`, the string the category filters test. */
  function JoinedCategories(group: string): string
  {
    JoinWith(Categories(group), " ")
  }

  /** Some excluded word occurs in the joined categories. */
  predicate MentionsExcluded(joined: string)
  {
    HitsAny(joined, ExcludedWords)
  }

  /** The joined categories mention news and the name mentions no allowed network. */
  predicate NewsBlocked(joined: string, name: string)
  {
    Contains(joined, "news") && !NamesAllowedNetwork(name)
  }

  /**
   * Testing the joined string is testing each category: an excluded word
   * is in `" ".join(cats)` exactly when it is inside one category.
   */
  lemma ExclusionIsPerCategory(group: string)
    ensures MentionsExcluded(JoinedCategories(group)) <==>
            exists k, j :: 0 <= k < |Categories(group)| && 0 <= j < |ExcludedWords| &&
                           Contains(Categories(group)[k], ExcludedWords[j])
  {
    var cats := Categories(group);
    assert " " == [' '];
    forall j | 0 <= j < |ExcludedWords|
      ensures Contains(JoinedCategories(group), ExcludedWords[j]) <==>
              exists k :: 0 <= k < |cats| && Contains(cats[k], ExcludedWords[j])
    {
      assert ' ' !in ExcludedWords[j];
      JoinedContains(cats, ' ', ExcludedWords[j]);
    }
  }

  /** Likewise `"news" in " ".join(cats)` holds exactly when one category contains "news". */
  lemma NewsIsPerCategory(group: string)
    ensures Contains(JoinedCategories(group), "news") <==>
            exists k :: 0 <= k < |Categories(group)| && Contains(Categories(group)[k], "news")
  {
    assert " " == [' '];
    assert ' ' !in "news";
    JoinedContains(Categories(group), ' ', "news");
  }

  /** What every returned entry satisfies. */
  predicate ValidEntry(e: Entry)
  {
    && StartsWith(e.url, "http")
    && e.country in Countries
    && e.country == CountryOf(e.groupTitle)
    && !Contains(e.groupTitle, Quote)
    && !MentionsExcluded(JoinedCategories(e.groupTitle))
    && !NewsBlocked(JoinedCategories(e.groupTitle), e.name)
    && !Contains(e.name, NameCut)
  }

  /**
   * The entry read from a header line and the line after it, or `None` when
   * the source drops it: no comma, a following line that does not start with
   * "http" once stripped, no country, an excluded category, or news from a
   * network not on the allow-list.
   */
  function HeaderEntry(header: string, urlLine: string): (r: Option<Entry>)
    ensures r.Some? ==> ValidEntry(r.value)
    ensures r.Some? ==> NameOf(header) == Some(r.value.name) &&
                        r.value.groupTitle == GroupTitle(header) &&
                        r.value.url == Strip(urlLine)
    ensures r.None? <==>
              || NameOf(header).None?
              || !StartsWith(Strip(urlLine), "http")
              || CountryOf(GroupTitle(header)) == ""
              || MentionsExcluded(JoinedCategories(GroupTitle(header)))
              || NewsBlocked(JoinedCategories(GroupTitle(header)), NameOf(header).value)
  {
    match NameOf(header)
    case None => None
    case Some(name) =>
      var url := Strip(urlLine);
      if !StartsWith(url, "http") then None
      else
        var group := GroupTitle(header);
        var country := CountryOf(group);
        if country == "" then None
        else
          var joined := JoinedCategories(group);
          if MentionsExcluded(joined) then None
          else if NewsBlocked(joined, name) then None
          else Some(Entry(name, country, group, url))
  }

  /** A line that starts with "http" once stripped is never a header, so stepping over it loses no entry. */
  lemma UrlLineIsNotHeader(line: string)
    requires StartsWith(Strip(line), "http")
    ensures !IsHeader(line)
  {
    if IsHeader(line) {
      assert line[0] == '#';
      StripKeepsHead(line);
      assert false;
    }
  }

  /** The entry contributed by line h when it is examined as a header. */
  function Candidate(lines: seq<string>, h: nat): Option<Entry>
  {
    if h + 1 < |lines| && IsHeader(lines[h]) then HeaderEntry(lines[h], lines[h + 1]) else None
  }

  /** The entry each line position contributes, as a function of the position. */
  function CandidateAt(lines: seq<string>): nat -> Option<Entry>
  {
    (h: nat) => Candidate(lines, h)
  }

  /** The positions holding an `#EXTINF:` header, as a predicate on positions. */
  function HeaderAt(lines: seq<string>): nat -> bool
  {
    (h: nat) => h < |lines| && IsHeader(lines[h])
  }

  /** A header with a name whose entry fails one of the later tests contributes nothing. */
  lemma HeaderDropped(lines: seq<string>, h: nat, name: string)
    requires h + 1 < |lines| && IsHeader(lines[h]) && NameOf(lines[h]) == Some(name)
    requires || !StartsWith(Strip(lines[h + 1]), "http")
             || CountryOf(GroupTitle(lines[h])) == ""
             || MentionsExcluded(JoinedCategories(GroupTitle(lines[h])))
             || NewsBlocked(JoinedCategories(GroupTitle(lines[h])), name)
    ensures CandidateAt(lines)(h).None?
  {
  }

  /** A header whose entry passes every test contributes that entry. */
  lemma HeaderKept(lines: seq<string>, h: nat, name: string)
    requires h + 1 < |lines| && IsHeader(lines[h]) && NameOf(lines[h]) == Some(name)
    requires StartsWith(Strip(lines[h + 1]), "http")
    requires CountryOf(GroupTitle(lines[h])) != ""
    requires !MentionsExcluded(JoinedCategories(GroupTitle(lines[h])))
    requires !NewsBlocked(JoinedCategories(GroupTitle(lines[h])), name)
    ensures CandidateAt(lines)(h) ==
            Some(Entry(name, CountryOf(GroupTitle(lines[h])), GroupTitle(lines[h]), Strip(lines[h + 1])))
  {
  }

  /** Every entry the selection keeps passes the entry filters. */
  lemma SelectedEntriesValid(lines: seq<string>)
    ensures var out := Picks(CandidateAt(lines), |lines|);
            forall j :: 0 <= j < |out| ==> ValidEntry(out[j])
  {
    var f := CandidateAt(lines);
    var out := Picks(f, |lines|);
    var idx := PickedIndices(f, |lines|);
    PicksAreSelection(f, |lines|);
    forall j | 0 <= j < |out|
      ensures ValidEntry(out[j])
    {
      assert f(idx[j]) == Some(out[j]);
      CandidateValid(lines, idx[j]);
    }
  }

  /** Every entry a header contributes passes all the entry checks. */
  lemma CandidateValid(lines: seq<string>, h: nat)
    requires Candidate(lines, h).Some?
    ensures ValidEntry(Candidate(lines, h).value)
  {
  }

  /** There are no more entries than header lines: each header yields at most one entry. */
  lemma SelectionBound(lines: seq<string>)
    ensures |Picks(CandidateAt(lines), |lines|)| <= CountWhere(HeaderAt(lines), |lines|)
  {
    PicksBound(CandidateAt(lines), HeaderAt(lines), |lines|);
  }

  /**
   * The entries come one per kept header, in line order, each read from its
   * header and the line right after it.
   */
  lemma SelectionInLineOrder(lines: seq<string>)
    ensures var out := Picks(CandidateAt(lines), |lines|);
            var idx := PickedIndices(CandidateAt(lines), |lines|);
            |out| == |idx| &&
            forall j :: 0 <= j < |idx| ==>
              idx[j] + 1 < |lines| && IsHeader(lines[idx[j]]) &&
              HeaderEntry(lines[idx[j]], lines[idx[j] + 1]) == Some(out[j])
  {
    var f := CandidateAt(lines);
    var out := Picks(f, |lines|);
    var idx := PickedIndices(f, |lines|);
    PicksAreSelection(f, |lines|);
    forall j | 0 <= j < |idx|
      ensures idx[j] + 1 < |lines| && IsHeader(lines[idx[j]])
      ensures HeaderEntry(lines[idx[j]], lines[idx[j] + 1]) == Some(out[j])
    {
      assert f(idx[j]) == Some(out[j]);
    }
  }

  /**
   * No header is passed over: every header line whose entry passes the
   * tests is among the kept ones, including a header that directly follows
   * another header.
   */
  lemma EveryHeaderExamined(lines: seq<string>, h: nat)
    requires h + 1 < |lines| && IsHeader(lines[h]) && HeaderEntry(lines[h], lines[h + 1]).Some?
    ensures h in PickedIndices(CandidateAt(lines), |lines|)
  {
    HeaderCandidate(lines, h);
    PickedIndicesComplete(CandidateAt(lines), |lines|, h);
  }

  /** A line that is not a header, or the position past the end, contributes nothing. */
  lemma NoHeaderNoCandidate(lines: seq<string>, h: nat)
    requires h <= |lines| && (h < |lines| ==> !IsHeader(lines[h]))
    ensures CandidateAt(lines)(h).None?
  {
  }

  /** A header with a line after it contributes the entry read from the two. */
  lemma HeaderCandidate(lines: seq<string>, h: nat)
    requires h + 1 < |lines| && IsHeader(lines[h])
    ensures CandidateAt(lines)(h) == HeaderEntry(lines[h], lines[h + 1])
  {
  }

  /**
   * The `try` block for the header at index i. It returns the index the
   * block leaves behind, whether it ended in `continue` (which skips the
   * loop's own increment), and the entry it appended, if any. An IndexError
   * ends the block where it is raised; the handler swallows it.
   */
  method ReadHeader(lines: seq<string>, i: nat) returns (j: nat, continued: bool, entry: Option<Entry>)
    requires i < |lines| && IsHeader(lines[i])
    ensures i <= j <= i + 1
    ensures NameOf(lines[i]).Some? ==> j == i + 1
    ensures entry == CandidateAt(lines)(i)
    ensures continued ==> j == i + 1 && entry.None?
    ensures entry.Some? ==> !continued
    ensures !continued && j == i + 1 ==> CandidateAt(lines)(j).None?
    ensures NameOf(lines[i]).None? ==> j == i && !continued
    ensures NameOf(lines[i]).Some? && i + 1 == |lines| ==> j == |lines| && !continued
    ensures NameOf(lines[i]).Some? && i + 1 < |lines| && !StartsWith(Strip(lines[i + 1]), "http") ==>
              continued && j == i + 1
    ensures NameOf(lines[i]).Some? && i + 1 < |lines| && entry.None? ==> continued
  {
    j, continued, entry := i, false, None;
    match NameOf(lines[j])
    case None =>
      // no comma: `split(",", 1)[1]` raises
    case Some(name) =>
      j := j + 1;
      if j == |lines| {
        // header on the last line: `lines[i]` raises
        return;
      }
      var url := Strip(lines[j]);
      if !StartsWith(url, "http") {
        HeaderDropped(lines, i, name);
        continued := true;
        return;
      }
      var group := GroupTitle(lines[j - 1]);
      var country := CountryOf(group);
      if country == "" {
        HeaderDropped(lines, i, name);
        continued := true;
        return;
      }
      var joined := JoinedCategories(group);
      if MentionsExcluded(joined) {
        HeaderDropped(lines, i, name);
        continued := true;
        return;
      }
      if NewsBlocked(joined, name) {
        HeaderDropped(lines, i, name);
        continued := true;
        return;
      }
      HeaderKept(lines, i, name);
      UrlLineIsNotHeader(lines[j]);
      entry := Some(Entry(name, country, group, url));
  }

  /**
   * `parse_m3u` on the playlist already split into lines. The index loop
   * follows the source: the `try` block moves the index past the header
   * before the URL is read, and a `continue` then skips the loop's own
   * increment, so a line that is not a URL is examined again as a possible
   * header.
   */
  method ParseM3U(lines: seq<string>) returns (channels: seq<Entry>)
    ensures channels == Picks(CandidateAt(lines), |lines|)
    ensures forall j :: 0 <= j < |channels| ==> ValidEntry(channels[j])
    ensures |channels| <= CountWhere(HeaderAt(lines), |lines|)
  {
    var f := CandidateAt(lines);
    channels := [];
    var i := 0;
    while i < |lines|
      invariant i <= |lines| + 1
      invariant channels == Picks(f, i)
      decreases |lines| + 1 - i
    {
      if IsHeader(lines[i]) {
        var j, continued, entry := ReadHeader(lines, i);
        PicksExtend(f, i, entry);
        channels := channels + (if entry.Some? then [entry.value] else []);
        if !continued && j == i + 1 {
          PicksExtendNone(f, j);
        }
        i := j;
        if continued {
          continue;
        }
      } else {
        NoHeaderNoCandidate(lines, i);
        PicksExtendNone(f, i);
      }
      i := i + 1;
    }
    if i > |lines| {
      // the last line was a header: the index stops one past the end
      NoHeaderNoCandidate(lines, |lines|);
      PicksExtendNone(f, |lines|);
    }
    SelectedEntriesValid(lines);
    SelectionBound(lines);
  }
}
