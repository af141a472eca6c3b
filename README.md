# Berry glossary front-end: term resolution and page projection

A model of the core logic of the glossary site's `index.js`, an Express
front-end to a remote dictionary API. Three pieces are modelled:

- the **term resolver** of `getTerm`: the route parameter is lower-cased,
  then URI-decoded, and the fetched term list is scanned front to back; every
  term whose lower-cased name, or one of whose lower-cased aliases, equals the
  query overwrites the result, so the *last* match in list order wins;
- the **template projector**: the term page is a copy of the term template
  rewritten by nine successive `String.prototype.replace` calls with string
  patterns, each of which replaces only the first occurrence and works on
  the previous call's output; the not-found and index pages use one call each;
- the **index list builder** of `getRoot`: one `<li>` item per term, joined by
  newlines, with the alias text `aliases.join(', ')` falling back to
  `no aliases` (index page) or `None` (term page) when the join is empty;

and the upstream client's status test (`status < 500` is a completion).

Modules: `Wrappers` (Option), `Text` (indexOf, first-occurrence replace,
join, and split as join's inverse), `Glossary` (terms, the foreign
library, the resolver), `Pages` (projection, alias text, index list, term
page), `Handlers` (`getRoot`, `getTerm`).

Foreign calls are uninterpreted: `toLowerCase`, `decodeURI`, `encodeURI`,
showdown's `makeHtml`, `sanitizeHtml` and `Date.prototype.toDateString` are
fields of the `Library` value every operation receives. `decodeURI` is
partial (`None` where it throws a URIError). The upstream `/list` response
(status and term list) and the three templates read at start-up are inputs.
A handler either sends a body (`Sent`) or rejects before sending anything
(`NoResponse`): that is the outcome when the upstream status is 500 or more,
or when decoding throws, since both happen outside the `try`. The not-found
page is the `None` branch of the resolver, where the source lets
`term.name` throw and catches it. The term-page template is a value, so
rendering works on a copy and never changes it.

The projector is meant to be single-pass, with substituted values never
re-expanded; the model follows the code, where that does not hold: in the code each `replace` scans the whole current
string, values inserted by earlier calls included. `InsertedValuesAreRescanned`
shows a term named `$ID` whose name, not the template's `$ID`, receives the id.
Within a single step the model's `ReplaceFirst` inserts the value literally; JavaScript's own
`replace` would expand `$`-patterns in it, which is left out (see "## Left out").

## Model

| member | source | states |
|---|---|---|
| Text.IndexOf | index.js:50-58 | the position `replace` uses is an occurrence of the pattern with none before it; None exactly when the pattern occurs nowhere |
| Text.ReplaceFirst | index.js:50-58 | the text is unchanged when the pattern is absent; otherwise exactly the first occurrence is replaced by the value (inserted literally by the model, without `$`-pattern expansion), and everything else is kept |
| Text.ReplaceFirstTwice | index.js:50-51 | two replacements with the same pattern fill its first two occurrences, unless the first value creates an earlier occurrence |
| Text.JoinEmptyIff | index.js:30 | a join with a non-empty separator is empty exactly for no elements or one empty element, so the alias fallback is not only taken for an empty list |
| Text.Join | index.js:30-31 | `Array.prototype.join`: empty for no pieces; otherwise starts with the first piece, ends with the last, and has the separator right after the first when there are two or more |
| Text.SplitJoin | index.js:31 | cutting a newline join at its newlines gives back the joined pieces, when none contains a newline |
| Glossary.MatchesIff | index.js:42-44 | a term matches when its lower-cased name equals the query or some alias, lower-cased, does |
| Glossary.LowerAll | index.js:44 | `aliases.map(a => a.toLowerCase())`: one lower-cased alias per alias, in order |
| Glossary.Matches | index.js:42-44 | the `if`/`else if` test: the lower-cased name equals the query, or the query is among the lower-cased aliases (characterised by MatchesIff) |
| Glossary.FindLast | index.js:41-47 | the result is a matching index with no match after it; None exactly when no term matches |
| Glossary.LastMatch | index.js:40-47 | the term the resolver settles on: None exactly when no term matches, otherwise a matching term after which no term matches |
| Glossary.ResolveTerm | index.js:40-47 | the overwrite-on-match loop ends with no term exactly when nothing matches, and otherwise with a matching term after which none matches (the last match) |
| Glossary.ResolveByName | index.js:42-43 | a term is found under its own lower-cased name when no later term matches that name |
| Glossary.ResolveByAlias | index.js:44-45 | a term is found under each lower-cased alias when no later term matches it |
| Glossary.LaterMatchWins | index.js:41-47 | of two matching terms the earlier is never the result |
| Pages.ProjectAppend | index.js:50-58 | a replacement chain split in two is the second part applied to the output of the first |
| Pages.Project | index.js:50-58 | a chain of `s = s.replace(placeholder, value)` statements as a left fold of ReplaceFirst, each step on the previous output (its properties are ProjectAppend, ProjectFillsTwice, RenderTermPage) |
| Pages.ProjectFillsTwice | index.js:50-51 | a chain starting with two steps for the same pattern fills the pattern's first two occurrences and then runs the rest on that text |
| Pages.TermSubstitutions | index.js:50-58 | the nine (placeholder, value) pairs in source order: the name twice, then FieldSubstitutions |
| Pages.FieldSubstitutions | index.js:52-58 | aliases text with fallback `None`, Markdown-rendered description and source, id, category, category id and the formatted creation date |
| Pages.TermPageFillsBothNames | index.js:50-58 | the term page puts the name at the first two `$TERM_NAME` occurrences and then applies the seven field steps to that text |
| Pages.AliasText | index.js:52 | `aliases.join(', ') || fallback`: the fallback exactly for no aliases or one empty alias, otherwise the non-empty comma join |
| Pages.AliasTextExamples | index.js:30 | no aliases show `no aliases` on the index page; one empty alias shows `None` on the term page |
| Pages.AliasTextTwoAliases | index.js:30 | aliases A and B show as `A, B` |
| Pages.Item | index.js:30 | one `<li>` item: link target `/term/` plus the encoded lower-cased name, link text the literal name, then the alias text with fallback `no aliases` |
| Pages.Items | index.js:29-30 | `list.map(...)`: exactly one item per term, the i-th being the i-th term's item |
| Pages.IndexList | index.js:29-31 | the items joined by newlines: empty for an empty directory, the bare item for one term |
| Pages.IndexListOneItemPerTerm | index.js:29-31 | the index list holds exactly one item per term, in directory order |
| Pages.RenderTermPage | index.js:36-58 | the nine successive reassignments of the copy equal the left fold of first-occurrence replacement over the nine (placeholder, value) pairs in source order |
| Pages.CategoryStepTakesCategoryId | index.js:56-57 | when the first `$CATEGORY` is the start of a `$CATEGORY_ID`, the category step consumes it and leaves `_ID` |
| Pages.InsertedValuesAreRescanned | index.js:50-55 | a value inserted by an earlier step is scanned by later steps: a name `$ID` receives the id |
| Text.ReplaceAtStart | index.js:50 | a pattern at the start of the text is the occurrence replaced |
| Handlers.ValidateStatus | index.js:13 | the client's `validateStatus`: a status below 500 is a completion |
| Handlers.FetchList | index.js:12-15 | the term list is obtained exactly when the upstream status is below 500, and is then the response's data; otherwise the client throws |
| Handlers.GetRoot | index.js:27-33 | the index page is sent exactly when the upstream status is below 500, with the list text in place of the first `$LIST` |
| Handlers.TermResponse | index.js:49-63 | what the `try`/`catch` sends: always a body; with no match, the not-found template with its first `$TERM_NAME` replaced by the sanitised query |
| Handlers.NotFoundIgnoresTermPage | index.js:49-62 | the not-found response does not depend on the term-page template: no term-page replacement reaches it |
| Handlers.TermResponseFound | index.js:49-59 | with a last match at some index the response is the term page projected from that term |
| Handlers.GetTerm | index.js:35-64 | nothing is sent when the fetch fails or decoding throws; otherwise the response for the lower-cased then decoded parameter |

## Left out

- Express setup, routing, body parsers, static files and the port (index.js:16, 24-25, 66-71): framework plumbing.
- Reading the templates from disk (index.js:8-10): the three templates are inputs.
- The HTTP request itself (index.js:12-15, 28, 38): the upstream response is an input; `await` is a plain call; a status of 500 or more is a rejection.
- showdown's Markdown conversion, `sanitizeHtml`, `toDateString`, `encodeURI`, `decodeURI` and Unicode `toLowerCase` are foreign library calls and stay uninterpreted.
- `String.prototype.replace`'s special `$` patterns in the replacement (`$&`, `$$`, `` $` ``, `$'`): ReplaceFirst inserts the value literally, although term fields (index.js:50-58) and the index list (index.js:32) are inserted raw and could contain them.
- Malformed upstream payloads (a missing field, a non-array body on a 4xx status, non-string names): terms are well-typed values; the conversions of numeric `id` and `category_id` to text are taken as given strings.
- `console.log` of the caught error (index.js:61).
- Search and snippet building: not part of this source file.
