# Author/article record store behind a GraphQL endpoint

This project models the core of a small GraphQL server (`server.js`). The server
keeps two ordered in-memory collections, `authors` and `articles`, and
resolves these fields against them:

- the root queries `articles`, `authors`, `article(id)` and `author(id)`;
- the nested relation fields `Author.articles` and `Article.author`;
- the append-only mutations `addArticle(authorId, title, content)` and
  `addAuthor(name)`. Each new id is "last record's id + 1".

The model is functional. A `Store` holds two immutable sequences. Queries
are pure functions of the store. Mutations return a `Reply`, which pairs
the new store with either the created record or a fault.

Modules:

- `Wrappers`: `Option` (a present value, or `undefined`/`null`) and `Result`.
- `Scan`: `Find` and `Filter`, the two array scans the resolvers use. Each
  comes with a complete specification: first match, and order-preserving
  exact selection.
- `Records`: the `Author`, `Article` and `Store` datatypes, and the `Reply`
  that the mutations and `Execute` produce. `Valid` is the invariant that ids strictly
  increase in store order. `NextId` is the id rule.
- `Queries`, `Relationships`, `Mutations`: one function per resolver, plus
  the lemmas that relate them.
- `Schema`: the root fields dispatched over one store (`Execute`), and a
  run of many operations (`Run`).

On an empty collection an insert throws before pushing anything: it reads
`.id` of the missing last element (`server.js:102`, `server.js:119`). So
`AddArticle`/`AddAuthor` are total functions that return
`Failure(NoLastRecord)` with the store unchanged exactly when the collection
is empty.

Three further points about the code:

- The new id is the last record's id plus one, not the maximum plus one.
  The two agree whenever the last id is the largest, in particular under
  `Valid`; `AddArticleKeepsValid`/`AddAuthorKeepsValid` prove it there.
- Titles, contents and names may be any string, including the empty one,
  because `GraphQLNonNull(GraphQLString)` only requires that they are present.
- `Article.author` is modelled as a scan of the authors. It is not assumed
  to find a match, because nothing stops an `authorId` from naming no author.

## Model

| member | source | states |
|---|---|---|
| Scan.FindIndex | server.js:76 | the scan stops at the first position whose element satisfies the predicate, or reports that no element does |
| Scan.Find | server.js:76 | `find` returns nothing exactly when no element matches; otherwise it returns the element at the first matching position |
| Scan.Filter | server.js:28 | `filter` keeps exactly the matching elements with their multiplicities, in store order, as a subsequence of the input |
| Scan.FilterAppend | server.js:28 | filtering a concatenation is the concatenation of the filtered parts |
| Scan.FindAppend | server.js:76 | a scan over `a + b` returns the match in `a` if there is one, and otherwise the match in `b` |
| Records.NextId | server.js:102 | the new id is one more than an id already present; when ids increase it exceeds every id present, so it is the maximum plus one |
| Records.IncreasingIsDistinct | server.js:102 | strictly increasing ids are pairwise distinct |
| Records.AppendNextIdKeepsIncreasing | server.js:102-107 | appending the last id plus one keeps ids strictly increasing, and hence distinct |
| Queries.ArticleById | server.js:69-76 | `article(id)` is null for a null id or when no article has the id; otherwise it is the first stored article with that id |
| Queries.AuthorById | server.js:78-85 | `author(id)` is null for a null id or when no author has the id; otherwise it is the first stored author with that id |
| Queries.ArticleByIdExact | server.js:76 | with distinct ids, `article(k)` returns `a` if and only if `a` is stored with id `k` |
| Queries.AuthorByIdExact | server.js:85 | with distinct ids, `author(k)` returns `u` if and only if `u` is stored with id `k` |
| Relationships.ArticlesOfAuthor | server.js:25-29 | `Author.articles` holds exactly the stored articles whose `authorId` is the author's id, each as often as stored, in store order; it may be empty |
| Relationships.AuthorOfArticle | server.js:43-47 | `Article.author` is the first stored author whose id is the article's `authorId`, or null when the reference dangles |
| Relationships.AuthorOfArticleIsLookup | server.js:45-47 | resolving `Article.author` gives the same answer as the root query `author(id: authorId)` |
| Relationships.AuthorThenArticles | server.js:27-47 | a stored article belongs to the `articles` list of the author it resolves to |
| Relationships.ArticlesThenAuthor | server.js:27-47 | with distinct author ids, every article in a stored author's `articles` list resolves back to that author |
| Mutations.AddArticle | server.js:100-110 | faults, leaving the store unchanged, exactly when there are no articles; otherwise the new article has the last id plus one and the given fields, is appended after an unchanged prefix, is returned, and the authors are untouched |
| Mutations.AddAuthor | server.js:117-125 | faults, leaving the store unchanged, exactly when there are no authors; otherwise the new author has the last id plus one and the given name, is appended after an unchanged prefix, is returned, and the articles are untouched |
| Mutations.AddArticleKeepsValid | server.js:101-107 | `addArticle` preserves strictly increasing (hence unique) ids; the new id exceeds every old id and is one more than one of them |
| Mutations.AddAuthorKeepsValid | server.js:118-122 | `addAuthor` preserves strictly increasing (hence unique) ids; the new id exceeds every old id and is one more than one of them |
| Mutations.AddArticleThenLookup | server.js:100-110 | when article ids increase, after `addArticle`, `article(id)` returns the new article for its id and gives the old answer for every other id |
| Mutations.AddAuthorThenLookup | server.js:117-125 | when author ids increase, after `addAuthor`, `author(id)` returns the new author for its id and gives the old answer for every other id |
| Mutations.AddArticleExtendsAuthorArticles | server.js:107 | after `addArticle`, each author's `articles` list is the old list, with the new article appended exactly when it names that author |
| Mutations.AddAuthorRebindsDangling | server.js:122 | after `addAuthor`, articles keep the author they resolved to; a dangling article whose `authorId` equals the new id now resolves to the new author |
| Schema.Execute | server.js:58-128 | queries leave the store unchanged and succeed; `articles`/`authors` return the collections as stored; `article(id)`/`author(id)` are null exactly when the id is null or no stored record has it, and otherwise the first stored record with that id; `addArticle`/`addAuthor` succeed exactly on a non-empty collection, then append the returned record (last id plus one, the given fields) and leave the other collection alone; a fault leaves the store unchanged; every field only appends, and adds at most one record |
| Schema.ExecuteKeepsValid | server.js:90-128 | no root field breaks the strictly-increasing-ids invariant |
| Schema.RunKeepsValid | server.js:90-128 | any sequence of root fields keeps ids strictly increasing, and hence unique |
| Schema.SeedAddArticleScenario | server.js:100-110 | from one author and one article with id 1, `addArticle(1, "T2", "C2")` returns article 2, and `articles` then lists both in insertion order |
| Schema.SeedRelationScenario | server.js:27-29 | on that seed store, `author(1)` has exactly article 1 as its articles, and `author(99)` is null |

## Left out

- HTTP plumbing is not modelled: the Express app, the `graphqlHTTP` middleware, GraphiQL, the port choice and the start-up log (`server.js:1-2`, `11-12`, `135-140`).
- GraphQL schema construction, and the library's argument and scalar validation, are not modelled. These belong to a foreign library. A request that lacks a required argument is rejected before any resolver runs, so the model receives arguments that are already typed `int`/`string`.
- JavaScript loose equality (`==` at `server.js:28`, `76`, `85`) is not modelled as distinct from strict equality (`===` at `server.js:46`). Ids are `int`, and the two coincide there. A null or absent `id` argument matches no record, and `Option.None` models it.
- JavaScript numbers are unbounded `int` in the model. The model does not cover loss of precision above 2^53, or the GraphQL `Int` serialiser rejecting an id outside 32 bits.
- The seed data (`./data`, `server.js:14`) is not part of this model. The initial store is an arbitrary `Store`, and `Valid` is assumed where a lemma needs it.
- Concurrency is not modelled. The server handles one resolver at a time, with no interleaving.
- The `articles`/`authors` list queries (`Queries.ListArticles`, `Queries.ListAuthors`) carry no contract of their own. `Schema.Execute` states that they return the collections unchanged.
