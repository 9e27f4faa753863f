/** The search dialog: a case-insensitive substring match of the query against each
    product's name, category and tags. */
module Search {
  import opened Text
  import opened Seqs
  import opened Catalog

  /** `hay.toLowerCase().includes(query.toLowerCase())`. */
  predicate MatchesText(hay: string, query: string) {
    Contains(ToLower(hay), ToLower(query))
  }

  /** The name, the category or some tag contains the query, ignoring case. */
  predicate Matches(p: Product, query: string) {
    MatchesText(p.name, query) || MatchesText(p.category, query)
    || exists k :: 0 <= k < |p.tags| && MatchesText(p.tags[k], query)
  }

  function MatchesQuery(query: string): Product -> bool {
    (p: Product) => Matches(p, query)
  }

  /** `filteredProducts`: nothing for a blank query; otherwise the products that match the
      query as typed (not trimmed), in their original order. */
  function Results(all: seq<Product>, query: string): (r: seq<Product>)
    ensures IsBlank(query) ==> r == []
    ensures !IsBlank(query) ==> forall p :: p in r <==> p in all && Matches(p, query)
    ensures IsSubsequence(r, all)
  {
    if IsBlank(query) || |all| == 0 then []
    else
      FilterIsSubsequence(all, MatchesQuery(query));
      Filter(all, MatchesQuery(query))
  }

  lemma LowerCharIdempotent(c: char)
    ensures LowerChar(LowerChar(c)) == LowerChar(c)
    ensures IsSpace(LowerChar(c)) <==> IsSpace(c)
  {
  }

  lemma ToLowerIdempotent(s: string)
    ensures ToLower(ToLower(s)) == ToLower(s)
  {
    forall i | 0 <= i < |s| ensures ToLower(ToLower(s))[i] == ToLower(s)[i] {
      LowerCharIdempotent(s[i]);
    }
  }

  lemma ToLowerKeepsSpace(s: string)
    ensures AllSpace(ToLower(s)) <==> AllSpace(s)
  {
    forall i | 0 <= i < |s| ensures IsSpace(ToLower(s)[i]) <==> IsSpace(s[i]) {
      LowerCharIdempotent(s[i]);
    }
  }

  /** Typing the query in any case gives the same results. */
  lemma ResultsIgnoreCase(all: seq<Product>, query: string)
    ensures forall p :: p in Results(all, query) <==> p in Results(all, ToLower(query))
  {
    ToLowerIdempotent(query);
    ToLowerKeepsSpace(query);
    forall p | p in all ensures Matches(p, query) <==> Matches(p, ToLower(query)) {
    }
  }

  /** A product whose name contains the query is found. */
  lemma NameHitIsFound(all: seq<Product>, query: string, k: nat)
    requires !IsBlank(query) && k < |all|
    requires Contains(ToLower(all[k].name), ToLower(query))
    ensures all[k] in Results(all, query)
  {
  }

  datatype DialogState = DialogState(query: string, open: bool)

  /** Choosing a result navigates to its page, closes the dialog and clears the query. */
  function SelectResult(s: DialogState, slug: string): (r: (DialogState, string))
    ensures r.0.query == "" && !r.0.open
    ensures r.1 == "/product/" + slug
  {
    (DialogState("", false), "/product/" + slug)
  }

  /** After a selection the dialog shows no results until something is typed again. */
  lemma SelectResultClears(s: DialogState, slug: string, all: seq<Product>)
    ensures Results(all, SelectResult(s, slug).0.query) == []
  {
    assert AllSpace("");
  }
}
