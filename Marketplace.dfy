/**
 * The marketplace listing of `src/app/marketplace/page.tsx`: the conjunctive
 * filter over the ideas, the comparator-driven sort of the filtered array and
 * the two badge-colour mappings.
 */
module Marketplace {
  import opened Strings

  /** One marketplace record; `aiScore` and `businessImpact` are kept in tenths
      (9.2 is 92), which orders them as the decimals do. */
  datatype Idea = Idea(
    id: int, title: string, description: string, category: string, tags: seq<string>,
    author: string, publishedDate: string, views: int, likes: int, comments: int,
    aiScore: int, businessImpact: int, complexity: string, status: string)

  const ALL: string := "All"

  /** The status filter's options (page.tsx:812). */
  const STATUSES: seq<string> :=
    ["All", "Looking for Co-founder", "Seeking Investment", "In Development", "Ready to Launch"]

  // ---------------------------------------------------------------------
  // The filter (page.tsx:821-829)
  // ---------------------------------------------------------------------

  predicate MatchesCategory(idea: Idea, category: string)
  {
    category == ALL || idea.category == category
  }

  predicate MatchesStatus(idea: Idea, status: string)
  {
    status == ALL || idea.status == status
  }

  /** Case-insensitive substring search over title, description and tags. */
  predicate MatchesSearch(idea: Idea, term: string)
  {
    || term == ""
    || Contains(ToLower(idea.title), ToLower(term))
    || Contains(ToLower(idea.description), ToLower(term))
    || exists k | 0 <= k < |idea.tags| :: Contains(ToLower(idea.tags[k]), ToLower(term))
  }

  /** The `searchTerm === ""` shortcut changes nothing: every text includes
      the empty string. */
  lemma EmptySearchShortcut(idea: Idea, term: string)
    ensures MatchesSearch(idea, term)
            <==> || Contains(ToLower(idea.title), ToLower(term))
                 || Contains(ToLower(idea.description), ToLower(term))
                 || exists k | 0 <= k < |idea.tags| :: Contains(ToLower(idea.tags[k]), ToLower(term))
  {
    if term == "" {
      assert |ToLower(term)| == 0;
      assert OccursAt(ToLower(idea.title), ToLower(term), 0);
    }
  }

  predicate Matches(idea: Idea, category: string, status: string, term: string)
  {
    MatchesCategory(idea, category) && MatchesStatus(idea, status) && MatchesSearch(idea, term)
  }

  /** `ideas.filter(...)`: the matching ideas, in their order. Sound and
      complete with respect to `Matches`. */
  function FilterIdeas(ideas: seq<Idea>, category: string, status: string, term: string)
    : (r: seq<Idea>)
    ensures |r| <= |ideas|
    ensures forall x | x in r :: x in ideas && Matches(x, category, status, term)
    ensures forall x | x in ideas && Matches(x, category, status, term) :: x in r
  {
    if ideas == [] then []
    else
      var rest := FilterIdeas(ideas[1..], category, status, term);
      if Matches(ideas[0], category, status, term) then [ideas[0]] + rest else rest
  }

  /** Filtering keeps the source order: it distributes over concatenation. */
  lemma {:induction false} FilterAppend(a: seq<Idea>, b: seq<Idea>, category: string, status: string, term: string)
    ensures FilterIdeas(a + b, category, status, term)
            == FilterIdeas(a, category, status, term) + FilterIdeas(b, category, status, term)
  {
    if a == [] {
      assert a + b == b;
    } else {
      assert (a + b)[1..] == a[1..] + b;
      FilterAppend(a[1..], b, category, status, term);
    }
  }

  /** "All", "All" and an empty search keep every idea, in order. */
  lemma {:induction false} AllIsNeutral(ideas: seq<Idea>)
    ensures FilterIdeas(ideas, ALL, ALL, "") == ideas
  {
    if ideas != [] {
      AllIsNeutral(ideas[1..]);
    }
  }

  /** Two search terms with the same lower-case form select the same ideas. */
  lemma {:induction false} SearchIgnoresCase(ideas: seq<Idea>, category: string, status: string, t1: string, t2: string)
    requires ToLower(t1) == ToLower(t2)
    ensures FilterIdeas(ideas, category, status, t1) == FilterIdeas(ideas, category, status, t2)
  {
    if ideas != [] {
      assert t1 == "" <==> t2 == "" by {
        assert |ToLower(t1)| == |t1| && |ToLower(t2)| == |t2|;
      }
      assert Matches(ideas[0], category, status, t1) == Matches(ideas[0], category, status, t2);
      SearchIgnoresCase(ideas[1..], category, status, t1, t2);
    }
  }

  /** In particular, searching for the lower-cased term changes nothing. */
  lemma SearchLowerCased(ideas: seq<Idea>, category: string, status: string, term: string)
    ensures FilterIdeas(ideas, category, status, ToLower(term)) == FilterIdeas(ideas, category, status, term)
  {
    ToLowerIdempotent(term);
    SearchIgnoresCase(ideas, category, status, ToLower(term), term);
  }

  // ---------------------------------------------------------------------
  // The sort (page.tsx:830-837)
  // ---------------------------------------------------------------------

  /** The comparator `(a, b) => key(b) - key(a)` sorts by non-increasing key.
      For "newest" the key is the publication time, which the page obtains
      from the host's `Date` parser and is passed in here as `published`; an
      unknown `sortBy` makes the comparator 0, a constant key. */
  function SortKey(sortBy: string, published: Idea -> int, idea: Idea): int
  {
    if sortBy == "newest" then published(idea)
    else if sortBy == "popular" then idea.likes
    else if sortBy == "aiScore" then idea.aiScore
    else 0
  }

  predicate KnownSortBy(sortBy: string)
  {
    sortBy == "newest" || sortBy == "popular" || sortBy == "aiScore"
  }

  predicate SortedByKey(s: seq<Idea>, sortBy: string, published: Idea -> int)
  {
    forall i, j | 0 <= i < j < |s| :: SortKey(sortBy, published, s[i]) >= SortKey(sortBy, published, s[j])
  }

  predicate SameKeys(s: seq<Idea>, sortBy: string, published: Idea -> int)
  {
    forall i, j | 0 <= i < j < |s| :: SortKey(sortBy, published, s[i]) == SortKey(sortBy, published, s[j])
  }

  /** `.sort(comparator)` on the fresh array `filter` returned: a stable
      insertion sort, so that ideas with equal keys never change places. */
  method SortInPlace(a: array<Idea>, sortBy: string, published: Idea -> int)
    modifies a
    ensures SortedByKey(a[..], sortBy, published)
    ensures multiset(a[..]) == multiset(old(a[..]))
    ensures SameKeys(old(a[..]), sortBy, published) ==> a[..] == old(a[..])
  {
    if a.Length == 0 {
      return;
    }
    var i := 1;
    while i < a.Length
      invariant 1 <= i <= a.Length
      invariant SortedByKey(a[..i], sortBy, published)
      invariant multiset(a[..]) == multiset(old(a[..]))
      invariant SameKeys(old(a[..]), sortBy, published) ==> a[..] == old(a[..])
    {
      InsertAt(a, i, sortBy, published);
      i := i + 1;
    }
    assert a[..a.Length] == a[..];
  }

  /** One insertion step: moves `a[i]` left past the ideas with a smaller key. */
  method InsertAt(a: array<Idea>, i: int, sortBy: string, published: Idea -> int)
    requires 1 <= i < a.Length
    requires SortedByKey(a[..i], sortBy, published)
    modifies a
    ensures SortedByKey(a[..i + 1], sortBy, published)
    ensures multiset(a[..]) == multiset(old(a[..]))
    ensures forall k | i < k < a.Length :: a[k] == old(a[k])
    ensures SameKeys(old(a[..i + 1]), sortBy, published) ==> a[..] == old(a[..])
  {
    var j := i;
    InsertionStart(a[..], i, sortBy, published);
    while j > 0 && SortKey(sortBy, published, a[j - 1]) < SortKey(sortBy, published, a[j])
      invariant 0 <= j <= i
      invariant Inserting(a[..], i, j, sortBy, published)
      invariant multiset(a[..]) == multiset(old(a[..]))
      invariant forall k | i < k < a.Length :: a[k] == old(a[k])
      invariant j == i ==> a[..] == old(a[..])
      invariant SameKeys(old(a[..i + 1]), sortBy, published) ==> j == i
    {
      InsertionStep(a[..], i, j, sortBy, published);
      Swap(a, j);
      j := j - 1;
    }
    InsertionDone(a[..], i, j, sortBy, published);
  }

  /** While `s[j]` travels left from `i`: the other ideas up to `i` are in
      order and all those after `s[j]` have a smaller key. */
  predicate Inserting(s: seq<Idea>, i: int, j: int, sortBy: string, published: Idea -> int)
    requires 0 <= j <= i < |s|
  {
    && (forall k, l | 0 <= k < l <= i && k != j && l != j ::
          SortKey(sortBy, published, s[k]) >= SortKey(sortBy, published, s[l]))
    && (forall l | j < l <= i :: SortKey(sortBy, published, s[j]) > SortKey(sortBy, published, s[l]))
  }

  lemma InsertionStart(s: seq<Idea>, i: int, sortBy: string, published: Idea -> int)
    requires 0 <= i < |s| && SortedByKey(s[..i], sortBy, published)
    ensures Inserting(s, i, i, sortBy, published)
  {
    forall k, l | 0 <= k < l < i
      ensures SortKey(sortBy, published, s[k]) >= SortKey(sortBy, published, s[l])
    {
      assert s[..i][k] == s[k] && s[..i][l] == s[l];
    }
  }

  lemma InsertionStep(s: seq<Idea>, i: int, j: int, sortBy: string, published: Idea -> int)
    requires 0 < j <= i < |s| && Inserting(s, i, j, sortBy, published)
    requires SortKey(sortBy, published, s[j - 1]) < SortKey(sortBy, published, s[j])
    ensures Inserting(s[j - 1 := s[j]][j := s[j - 1]], i, j - 1, sortBy, published)
  {
  }

  lemma InsertionDone(s: seq<Idea>, i: int, j: int, sortBy: string, published: Idea -> int)
    requires 0 <= j <= i < |s| && Inserting(s, i, j, sortBy, published)
    requires j == 0 || SortKey(sortBy, published, s[j - 1]) >= SortKey(sortBy, published, s[j])
    ensures SortedByKey(s[..i + 1], sortBy, published)
  {
    forall k, l | 0 <= k < l <= i
      ensures SortKey(sortBy, published, s[k]) >= SortKey(sortBy, published, s[l])
    {
      if k != j && l != j {
      } else if l == j {
        assert k <= j - 1;
        if k < j - 1 {
          assert SortKey(sortBy, published, s[k]) >= SortKey(sortBy, published, s[j - 1]);
        }
      }
    }
  }

  /** Exchanges `a[j - 1]` and `a[j]`. */
  method Swap(a: array<Idea>, j: int)
    requires 0 < j < a.Length
    modifies a
    ensures a[..] == old(a[..])[j - 1 := old(a[j])][j := old(a[j - 1])]
    ensures multiset(a[..]) == multiset(old(a[..]))
  {
    a[j - 1], a[j] := a[j], a[j - 1];
  }

  /** `filteredIdeas`: the matching ideas, sorted by the chosen key. */
  method FilteredIdeas(ideas: seq<Idea>, category: string, status: string, term: string,
                       sortBy: string, published: Idea -> int)
    returns (r: seq<Idea>)
    ensures multiset(r) == multiset(FilterIdeas(ideas, category, status, term))
    ensures |r| <= |ideas|
    ensures forall x | x in r :: x in ideas && Matches(x, category, status, term)
    ensures forall x | x in ideas && Matches(x, category, status, term) :: x in r
    ensures SortedByKey(r, sortBy, published)
    ensures !KnownSortBy(sortBy) ==> r == FilterIdeas(ideas, category, status, term)
  {
    var filtered := FilterIdeas(ideas, category, status, term);
    var a := new Idea[|filtered|](k requires 0 <= k < |filtered| => filtered[k]);
    assert a[..] == filtered;
    SortInPlace(a, sortBy, published);
    r := a[..];
    assert |r| == |filtered| by {
      assert |multiset(r)| == |multiset(filtered)|;
    }
    forall x | x in r ensures x in filtered {
      assert x in multiset(r);
    }
    forall x | x in filtered ensures x in r {
      assert x in multiset(filtered);
    }
  }

  // ---------------------------------------------------------------------
  // Badge colours (page.tsx:839-856)
  // ---------------------------------------------------------------------

  const GRAY: string := "bg-gray-100 text-gray-800"

  /** `getStatusColor`: one class per status, gray for anything else. */
  function StatusColor(status: string): (r: string)
    ensures r == GRAY <==> status !in STATUSES[1..]
  {
    match status
    case "Looking for Co-founder" => "bg-blue-100 text-blue-800"
    case "Seeking Investment" => "bg-green-100 text-green-800"
    case "In Development" => "bg-yellow-100 text-yellow-800"
    case "Ready to Launch" => "bg-purple-100 text-purple-800"
    case _ => GRAY
  }

  /** `getComplexityColor`: one class per complexity, gray for anything else. */
  function ComplexityColor(complexity: string): (r: string)
    ensures r == GRAY <==> complexity !in {"Low", "Medium", "High"}
  {
    match complexity
    case "Low" => "bg-green-100 text-green-800"
    case "Medium" => "bg-yellow-100 text-yellow-800"
    case "High" => "bg-red-100 text-red-800"
    case _ => GRAY
  }

  /** Distinct known statuses get distinct badges, as do distinct known complexities. */
  lemma ColorsDistinguish(s1: string, s2: string)
    ensures s1 in STATUSES[1..] && s2 in STATUSES[1..] && s1 != s2 ==> StatusColor(s1) != StatusColor(s2)
    ensures s1 in {"Low", "Medium", "High"} && s2 in {"Low", "Medium", "High"} && s1 != s2
            ==> ComplexityColor(s1) != ComplexityColor(s2)
  {
  }
}
