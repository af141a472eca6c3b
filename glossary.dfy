/**
 * The glossary's data and the term resolver of `getTerm`: the route
 * parameter is lower-cased, then URI-decoded, and the fetched term list is
 * scanned front to back, every matching term overwriting the previous
 * result, so the last match in list order wins.
 */
module Glossary {
  import opened Wrappers

  /**
   * One term as the upstream `/list` endpoint returns it. `id` and
   * `categoryId` hold the text that `String.prototype.replace` inserts for
   * them (the string conversion of the JSON values).
   */
  datatype Term = Term(
    id: string,
    name: string,
    aliases: seq<string>,
    description: string,
    source: string,
    category: string,
    categoryId: string,
    created: string)

  /**
   * The library calls whose internals the program does not show, taken as
   * uninterpreted functions: `toLowerCase`, `decodeURI` (None where it
   * throws a URIError), `encodeURI`, showdown's `makeHtml`, `sanitizeHtml`
   * and `new Date(created).toDateString()`.
   */
  datatype Library = Library(
    lower: string -> string,
    decode: string -> Option<string>,
    encode: string -> string,
    markdown: string -> string,
    sanitize: string -> string,
    dateString: string -> string)

  /** `t.aliases.map(a => a.toLowerCase())`. */
  function LowerAll(lib: Library, aliases: seq<string>): (r: seq<string>)
    ensures |r| == |aliases|
    ensures forall k :: 0 <= k < |aliases| ==> r[k] == lib.lower(aliases[k])
  {
    seq(|aliases|, k requires 0 <= k < |aliases| => lib.lower(aliases[k]))
  }

  /** The test of the `forEach` body: the lower-cased name, or one lower-cased alias, equals `q`. */
  predicate Matches(lib: Library, t: Term, q: string) {
    lib.lower(t.name) == q || q in LowerAll(lib, t.aliases)
  }

  /** A match is a name match or a match of one particular alias. */
  lemma MatchesIff(lib: Library, t: Term, q: string)
    ensures Matches(lib, t, q) <==>
      lib.lower(t.name) == q || exists k :: 0 <= k < |t.aliases| && lib.lower(t.aliases[k]) == q
  {
    if exists k :: 0 <= k < |t.aliases| && lib.lower(t.aliases[k]) == q {
      var k :| 0 <= k < |t.aliases| && lib.lower(t.aliases[k]) == q;
      assert LowerAll(lib, t.aliases)[k] == q;
    }
    if q in LowerAll(lib, t.aliases) {
      var k :| 0 <= k < |t.aliases| && LowerAll(lib, t.aliases)[k] == q;
    }
  }

  /** No term after position `i` matches `q`. */
  predicate LastOf(lib: Library, terms: seq<Term>, q: string, i: nat) {
    forall j :: i < j < |terms| ==> !Matches(lib, terms[j], q)
  }

  /** The index of the last term in `terms` that matches `q`. */
  function FindLast(lib: Library, terms: seq<Term>, q: string): (r: Option<nat>)
    ensures r.Some? ==> r.value < |terms| && Matches(lib, terms[r.value], q)
    ensures r.Some? ==> forall j :: r.value < j < |terms| ==> !Matches(lib, terms[j], q)
    ensures r.None? <==> forall j :: 0 <= j < |terms| ==> !Matches(lib, terms[j], q)
    decreases |terms|
  {
    if |terms| == 0 then None
    else if Matches(lib, terms[|terms| - 1], q) then Some(|terms| - 1)
    else FindLast(lib, terms[..|terms| - 1], q)
  }

  /** The term the resolver settles on: the last match, if any. */
  function LastMatch(lib: Library, terms: seq<Term>, q: string): (r: Option<Term>)
    ensures r.None? <==> forall j :: 0 <= j < |terms| ==> !Matches(lib, terms[j], q)
    ensures r.Some? ==>
      (exists i :: 0 <= i < |terms| && terms[i] == r.value && Matches(lib, terms[i], q) &&
         forall j :: i < j < |terms| ==> !Matches(lib, terms[j], q))
  {
    match FindLast(lib, terms, q)
    case None => None
    case Some(i) => Some(terms[i])
  }

  /**
   * The `forEach` loop of `getTerm`: `term` starts undefined (None) and is
   * overwritten by every term whose name or one of whose aliases matches.
   */
  method ResolveTerm(lib: Library, terms: seq<Term>, q: string) returns (term: Option<Term>)
    ensures term == LastMatch(lib, terms, q)
    ensures term.None? <==> forall j :: 0 <= j < |terms| ==> !Matches(lib, terms[j], q)
    ensures term.Some? ==>
      (exists i :: 0 <= i < |terms| && terms[i] == term.value && Matches(lib, terms[i], q) &&
         forall j :: i < j < |terms| ==> !Matches(lib, terms[j], q))
  {
    term := None;
    var i := 0;
    while i < |terms|
      invariant 0 <= i <= |terms|
      invariant term == LastMatch(lib, terms[..i], q)
    {
      var t := terms[i];
      assert terms[..i + 1][..i] == terms[..i];
      if lib.lower(t.name) == q {
        term := Some(t);
      } else if q in LowerAll(lib, t.aliases) {
        term := Some(t);
      }
      i := i + 1;
    }
    assert terms[..i] == terms;
  }

  /** Any term is found under its own lower-cased name, unless a later term also matches it. */
  lemma ResolveByName(lib: Library, terms: seq<Term>, i: nat)
    requires i < |terms|
    requires forall j :: i < j < |terms| ==> !Matches(lib, terms[j], lib.lower(terms[i].name))
    ensures FindLast(lib, terms, lib.lower(terms[i].name)) == Some(i)
  {
    var r := FindLast(lib, terms, lib.lower(terms[i].name));
    assert Matches(lib, terms[i], lib.lower(terms[i].name));
  }

  /** Any term is found under each of its lower-cased aliases, unless a later term also matches it. */
  lemma ResolveByAlias(lib: Library, terms: seq<Term>, i: nat, k: nat)
    requires i < |terms| && k < |terms[i].aliases|
    requires forall j :: i < j < |terms| ==> !Matches(lib, terms[j], lib.lower(terms[i].aliases[k]))
    ensures FindLast(lib, terms, lib.lower(terms[i].aliases[k])) == Some(i)
  {
    var q := lib.lower(terms[i].aliases[k]);
    assert LowerAll(lib, terms[i].aliases)[k] == q;
    assert Matches(lib, terms[i], q);
  }

  /** When two terms match, the earlier one is never the result: the later directory entry wins. */
  lemma LaterMatchWins(lib: Library, terms: seq<Term>, q: string, i: nat, j: nat)
    requires i < j < |terms|
    requires Matches(lib, terms[i], q) && Matches(lib, terms[j], q)
    ensures FindLast(lib, terms, q).Some? && FindLast(lib, terms, q).value >= j
  {
  }
}
