/**
 * The template projector: the pages are built from template strings by
 * successive first-occurrence replacements of `$`-placeholders, each step
 * working on the output of the one before.
 */
module Pages {
  import opened Text
  import opened Glossary

  const ListPlaceholder := "$LIST"
  const TermNamePlaceholder := "$TERM_NAME"
  const AliasesPlaceholder := "$TERM_ALIASES"
  const DescriptionPlaceholder := "$DESCRIPTION"
  const SourcePlaceholder := "$SOURCE"
  const IdPlaceholder := "$ID"
  const CategoryPlaceholder := "$CATEGORY"
  const CategoryIdPlaceholder := "$CATEGORY_ID"
  const CreatedPlaceholder := "$CREATED"

  /** The alias fallbacks of the index page and of the term page. */
  const IndexNoAliases := "no aliases"
  const TermPageNoAliases := "None"

  /** A chain of `s = s.replace(placeholder, value)` statements, in order. */
  function Project(s: string, subs: seq<(string, string)>): string
    decreases |subs|
  {
    if subs == [] then s
    else Project(ReplaceFirst(s, subs[0].0, subs[0].1), subs[1..])
  }

  /** A chain split in two: the second part works on the output of the first. */
  lemma {:induction false} ProjectAppend(s: string, a: seq<(string, string)>, b: seq<(string, string)>)
    ensures Project(s, a + b) == Project(Project(s, a), b)
    decreases |a|
  {
    if a == [] {
      assert a + b == b;
    } else {
      assert (a + b)[0] == a[0];
      assert (a + b)[1..] == a[1..] + b;
      ProjectAppend(ReplaceFirst(s, a[0].0, a[0].1), a[1..], b);
    }
  }

  /**
   * `aliases.join(', ') || fallback`: the fallback is taken when the join is
   * the empty string, which happens exactly for no aliases and for a single
   * empty alias; otherwise the text is the non-empty comma-separated join.
   */
  function AliasText(aliases: seq<string>, fallback: string): (r: string)
    ensures aliases == [] || aliases == [""] ==> r == fallback
    ensures aliases != [] && aliases != [""] ==> r == Join(aliases, ", ") != ""
  {
    JoinEmptyIff(aliases, ", ");
    var joined := Join(aliases, ", ");
    if joined == "" then fallback else joined
  }

  /** No aliases show the index page's fallback; one empty alias shows the term page's. */
  lemma AliasTextExamples()
    ensures AliasText([], IndexNoAliases) == "no aliases"
    ensures AliasText([""], TermPageNoAliases) == "None"
  {
  }

  /** Two aliases are shown comma-separated. */
  lemma AliasTextTwoAliases()
    ensures AliasText(["A", "B"], IndexNoAliases) == "A, B"
  {
    var xs := ["A", "B"];
    assert |xs| == 2 && xs[1..] == ["B"] && xs[0] == "A";
    assert xs != [] && xs != [""];
    var j := Join(xs, ", ");
    assert j == "A" + ", " + Join(["B"], ", ");
    assert Join(["B"], ", ") == "B";
    assert "A" + ", " + "B" == "A, B";
  }

  /** One line of the index list: a link to the lower-cased, URI-encoded name, and the aliases. */
  function Item(lib: Library, t: Term): string {
    "<li><a href=\"/term/" + lib.encode(lib.lower(t.name)) + "\">" + t.name + "</a> ("
      + AliasText(t.aliases, IndexNoAliases) + ")</li>"
  }

  /** `list.map(t => ...)`: one item per term, in directory order. */
  function Items(lib: Library, terms: seq<Term>): (r: seq<string>)
    ensures |r| == |terms|
    ensures forall i :: 0 <= i < |terms| ==> r[i] == Item(lib, terms[i])
  {
    seq(|terms|, i requires 0 <= i < |terms| => Item(lib, terms[i]))
  }

  /**
   * The `$LIST` value of the index page: the items joined by newlines. It
   * is empty for an empty directory and is the bare item for a single term.
   */
  function IndexList(lib: Library, terms: seq<Term>): (r: string)
    ensures terms == [] ==> r == ""
    ensures |terms| == 1 ==> r == Item(lib, terms[0])
  {
    Join(Items(lib, terms), "\n")
  }

  /**
   * The index list holds exactly one item per term, in directory order:
   * cut at its newlines it gives back the items (when no item itself spans
   * lines).
   */
  lemma IndexListOneItemPerTerm(lib: Library, terms: seq<Term>)
    requires |terms| >= 1
    requires forall i :: 0 <= i < |terms| ==> '\n' !in Item(lib, terms[i])
    ensures |Split(IndexList(lib, terms), '\n')| == |terms|
    ensures forall i :: 0 <= i < |terms| ==> Split(IndexList(lib, terms), '\n')[i] == Item(lib, terms[i])
  {
    SplitJoin(Items(lib, terms), '\n');
  }

  /**
   * The nine (placeholder, value) pairs of the term page, in the order of
   * the source: the name twice (title and heading), then the seven fields.
   */
  function TermSubstitutions(lib: Library, t: Term): seq<(string, string)> {
    [(TermNamePlaceholder, t.name), (TermNamePlaceholder, t.name)] + FieldSubstitutions(lib, t)
  }

  /** The last seven pairs of the term page: aliases, rendered fields, id, category and date. */
  function FieldSubstitutions(lib: Library, t: Term): seq<(string, string)> {
    [ (AliasesPlaceholder, AliasText(t.aliases, TermPageNoAliases)),
      (DescriptionPlaceholder, lib.markdown(t.description)),
      (SourcePlaceholder, lib.markdown(t.source)),
      (IdPlaceholder, t.id),
      (CategoryPlaceholder, t.category),
      (CategoryIdPlaceholder, t.categoryId),
      (CreatedPlaceholder, lib.dateString(t.created)) ]
  }

  /**
   * The body of the `try` block of `getTerm` on a found term: a copy of
   * the term-page template rewritten by nine successive replacements.
   */
  method RenderTermPage(lib: Library, termPage: string, t: Term) returns (termP: string)
    ensures termP == Project(termPage, TermSubstitutions(lib, t))
  {
    ghost var subs := TermSubstitutions(lib, t);
    ghost var page := Project(termPage, subs);
    termP := termPage;
    assert subs[0..] == subs;
    termP := ReplaceFirst(termP, TermNamePlaceholder, t.name);
    assert page == Project(termP, subs[1..]);
    termP := ReplaceFirst(termP, TermNamePlaceholder, t.name);
    assert page == Project(termP, subs[2..]);
    termP := ReplaceFirst(termP, AliasesPlaceholder, AliasText(t.aliases, TermPageNoAliases));
    assert page == Project(termP, subs[3..]);
    termP := ReplaceFirst(termP, DescriptionPlaceholder, lib.markdown(t.description));
    assert page == Project(termP, subs[4..]);
    termP := ReplaceFirst(termP, SourcePlaceholder, lib.markdown(t.source));
    assert page == Project(termP, subs[5..]);
    termP := ReplaceFirst(termP, IdPlaceholder, t.id);
    assert page == Project(termP, subs[6..]);
    termP := ReplaceFirst(termP, CategoryPlaceholder, t.category);
    assert page == Project(termP, subs[7..]);
    termP := ReplaceFirst(termP, CategoryIdPlaceholder, t.categoryId);
    assert page == Project(termP, subs[8..]);
    termP := ReplaceFirst(termP, CreatedPlaceholder, lib.dateString(t.created));
    assert page == Project(termP, subs[9..]);
  }

  /**
   * A chain that starts with two steps for the same pattern and value puts
   * the value in place of the pattern's first two occurrences and then runs
   * the rest, provided the first value does not create an earlier occurrence.
   */
  lemma ProjectFillsTwice(s: string, p: string, v: string, rest: seq<(string, string)>, i: nat, k: nat)
    requires OccursAt(s, p, i) && NoOccurrenceBefore(s, p, i)
    requires OccursAt(s, p, k) && i + |p| <= k
    requires NoOccurrenceBefore(s[..i] + v + s[i + |p|..], p, k - |p| + |v|)
    ensures Project(s, [(p, v), (p, v)] + rest)
         == Project(s[..i] + v + s[i + |p|..k] + v + s[k + |p|..], rest)
  {
    var names := [(p, v), (p, v)];
    ProjectAppend(s, names, rest);
    var s1 := ReplaceFirst(s, p, v);
    var s2 := ReplaceFirst(s1, p, v);
    assert names[0] == (p, v) && names[1..] == [(p, v)];
    assert Project(s, names) == Project(s1, [(p, v)]);
    assert [(p, v)][0] == (p, v) && [(p, v)][1..] == [];
    assert Project(s1, [(p, v)]) == Project(s2, []) == s2;
    ReplaceFirstTwice(s, p, v, v, i, k);
  }

  /**
   * The first two steps of the term page put the name in place of the
   * first two `$TERM_NAME` occurrences (title and heading), and the other
   * seven steps then work on that text, provided the name does not itself
   * create an earlier `$TERM_NAME`.
   */
  lemma TermPageFillsBothNames(lib: Library, termPage: string, t: Term, i: nat, k: nat)
    requires OccursAt(termPage, TermNamePlaceholder, i) && NoOccurrenceBefore(termPage, TermNamePlaceholder, i)
    requires OccursAt(termPage, TermNamePlaceholder, k) && i + |TermNamePlaceholder| <= k
    requires NoOccurrenceBefore(termPage[..i] + t.name + termPage[i + |TermNamePlaceholder|..],
                                TermNamePlaceholder, k - |TermNamePlaceholder| + |t.name|)
    ensures Project(termPage, TermSubstitutions(lib, t))
         == Project(termPage[..i] + t.name + termPage[i + |TermNamePlaceholder|..k] + t.name
                      + termPage[k + |TermNamePlaceholder|..],
                    FieldSubstitutions(lib, t))
  {
    ProjectFillsTwice(termPage, TermNamePlaceholder, t.name, FieldSubstitutions(lib, t), i, k);
  }

  /**
   * Order matters: `$CATEGORY` is a prefix of `$CATEGORY_ID`, so when the
   * first `$CATEGORY` the category step meets is the start of a
   * `$CATEGORY_ID`, that step consumes it and leaves `_ID` behind.
   */
  lemma CategoryStepTakesCategoryId(s: string, c: string, i: nat)
    requires OccursAt(s, CategoryIdPlaceholder, i)
    requires NoOccurrenceBefore(s, CategoryPlaceholder, i)
    ensures ReplaceFirst(s, CategoryPlaceholder, c) == s[..i] + c + "_ID" + s[i + |CategoryIdPlaceholder|..]
  {
    assert s[i..i + |CategoryPlaceholder|] == s[i..i + |CategoryIdPlaceholder|][..|CategoryPlaceholder|];
    assert OccursAt(s, CategoryPlaceholder, i);
    assert s[i + |CategoryPlaceholder|..] == "_ID" + s[i + |CategoryIdPlaceholder|..];
  }

  /**
   * Each step scans the whole string, values inserted by earlier steps
   * included: a term named `$ID` has its name, not the template's `$ID`,
   * replaced by the id.
   */
  lemma InsertedValuesAreRescanned(id: string)
    ensures Project("$TERM_NAME $ID", [(TermNamePlaceholder, "$ID"), (IdPlaceholder, id)])
         == id + " $ID"
  {
    var subs := [(TermNamePlaceholder, "$ID"), (IdPlaceholder, id)];
    var s := "$TERM_NAME $ID";
    ReplaceAtStart(s, TermNamePlaceholder, "$ID");
    var t := "$ID" + " $ID";
    assert s[|TermNamePlaceholder|..] == " $ID";
    ReplaceAtStart(t, IdPlaceholder, id);
    assert t[|IdPlaceholder|..] == " $ID";
    assert subs[1..] == [(IdPlaceholder, id)];
    assert Project(s, subs) == Project(t, subs[1..]);
  }
}
