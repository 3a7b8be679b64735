/** The append-only root mutations `addArticle` and `addAuthor`. Each builds
    a record whose id is the last record's id plus one, pushes it onto the
    end of its collection and returns it. On an empty collection the id
    computation reads a field of `undefined` and the resolver throws before
    anything is pushed. */
module Mutations {
  import opened Wrappers
  import opened Records
  import opened Scan
  import Queries
  import Relationships

  /** `addArticle(authorId, title, content)`. */
  function AddArticle(st: Store, authorId: int, title: string, content: string): (r: Reply<Article>)
    ensures r.result.Failure? <==> |st.articles| == 0
    ensures r.result.Failure? ==> r.store == st
    ensures r.result.Success? ==>
      var a := r.result.value;
      && a.id == st.articles[|st.articles| - 1].id + 1
      && a.authorId == authorId && a.title == title && a.content == content
      && |r.store.articles| == |st.articles| + 1
      && (forall i :: 0 <= i < |st.articles| ==> r.store.articles[i] == st.articles[i])
      && r.store.articles[|st.articles|] == a
      && r.store.authors == st.authors
  {
    if |st.articles| == 0 then Reply(st, Failure(NoLastRecord))
    else
      var article := Article(NextId(ArticleIds(st.articles)), authorId, title, content);
      Reply(st.(articles := st.articles + [article]), Success(article))
  }

  /** `addAuthor(name)`. */
  function AddAuthor(st: Store, name: string): (r: Reply<Author>)
    ensures r.result.Failure? <==> |st.authors| == 0
    ensures r.result.Failure? ==> r.store == st
    ensures r.result.Success? ==>
      var u := r.result.value;
      && u.id == st.authors[|st.authors| - 1].id + 1
      && u.name == name
      && |r.store.authors| == |st.authors| + 1
      && (forall i :: 0 <= i < |st.authors| ==> r.store.authors[i] == st.authors[i])
      && r.store.authors[|st.authors|] == u
      && r.store.articles == st.articles
  {
    if |st.authors| == 0 then Reply(st, Failure(NoLastRecord))
    else
      var author := Author(NextId(AuthorIds(st.authors)), name);
      Reply(st.(authors := st.authors + [author]), Success(author))
  }

  /** `addArticle` keeps the store's id invariant, and the new id is one
      more than the largest id already present. */
  lemma AddArticleKeepsValid(st: Store, authorId: int, title: string, content: string)
    requires Valid(st)
    ensures Valid(AddArticle(st, authorId, title, content).store)
    ensures Distinct(ArticleIds(AddArticle(st, authorId, title, content).store.articles))
    ensures AddArticle(st, authorId, title, content).result.Success? ==>
      var a := AddArticle(st, authorId, title, content).result.value;
      && (forall b :: b in st.articles ==> b.id < a.id)
      && (exists b :: b in st.articles && b.id == a.id - 1)
  {
    var ids := ArticleIds(st.articles);
    if |st.articles| == 0 {
      IncreasingIsDistinct(ids);
    } else {
      var a := AddArticle(st, authorId, title, content).result.value;
      ArticleIdsAppend(st.articles, a);
      AppendNextIdKeepsIncreasing(ids);
      var m := |ids| - 1;
      assert st.articles[m] in st.articles && st.articles[m].id == a.id - 1;
    }
  }

  /** `addAuthor` keeps the store's id invariant, and the new id is one
      more than the largest id already present. */
  lemma AddAuthorKeepsValid(st: Store, name: string)
    requires Valid(st)
    ensures Valid(AddAuthor(st, name).store)
    ensures Distinct(AuthorIds(AddAuthor(st, name).store.authors))
    ensures AddAuthor(st, name).result.Success? ==>
      var u := AddAuthor(st, name).result.value;
      && (forall v :: v in st.authors ==> v.id < u.id)
      && (exists v :: v in st.authors && v.id == u.id - 1)
  {
    var ids := AuthorIds(st.authors);
    if |st.authors| == 0 {
      IncreasingIsDistinct(ids);
    } else {
      var u := AddAuthor(st, name).result.value;
      AuthorIdsAppend(st.authors, u);
      AppendNextIdKeepsIncreasing(ids);
      var m := |ids| - 1;
      assert st.authors[m] in st.authors && st.authors[m].id == u.id - 1;
    }
  }

  /** After `addArticle`, `article(id)` finds the new record under its new
      id, and answers every other id exactly as before. */
  lemma AddArticleThenLookup(st: Store, authorId: int, title: string, content: string, k: int)
    requires StrictlyIncreasing(ArticleIds(st.articles))
    ensures
      var r := AddArticle(st, authorId, title, content);
      r.result.Success? ==>
        Queries.ArticleById(r.store, Some(k)) ==
          if k == r.result.value.id then Some(r.result.value)
          else Queries.ArticleById(st, Some(k))
  {
    var r := AddArticle(st, authorId, title, content);
    if r.result.Success? {
      var a := r.result.value;
      var p := (b: Article) => b.id == k;
      FindAppend(st.articles, [a], p);
    }
  }

  /** After `addAuthor`, `author(id)` finds the new record under its new
      id, and answers every other id exactly as before. */
  lemma AddAuthorThenLookup(st: Store, name: string, k: int)
    requires StrictlyIncreasing(AuthorIds(st.authors))
    ensures
      var r := AddAuthor(st, name);
      r.result.Success? ==>
        Queries.AuthorById(r.store, Some(k)) ==
          if k == r.result.value.id then Some(r.result.value)
          else Queries.AuthorById(st, Some(k))
  {
    var r := AddAuthor(st, name);
    if r.result.Success? {
      var u := r.result.value;
      var p := (v: Author) => v.id == k;
      FindAppend(st.authors, [u], p);
    }
  }

  /** After `addArticle`, an author's `articles` list is the old list,
      extended by the new article exactly when it names that author. */
  lemma AddArticleExtendsAuthorArticles(st: Store, authorId: int, title: string, content: string, author: Author)
    ensures
      var r := AddArticle(st, authorId, title, content);
      r.result.Success? ==>
        Relationships.ArticlesOfAuthor(r.store, author) ==
          Relationships.ArticlesOfAuthor(st, author) +
            (if authorId == author.id then [r.result.value] else [])
  {
    var r := AddArticle(st, authorId, title, content);
    if r.result.Success? {
      FilterAppend(st.articles, [r.result.value], (a: Article) => a.authorId == author.id);
    }
  }

  /** After `addAuthor`, an article keeps the author it resolved to; a
      dangling `authorId` that happens to equal the new id now resolves to
      the new author. */
  lemma AddAuthorRebindsDangling(st: Store, name: string, article: Article)
    ensures
      var r := AddAuthor(st, name);
      var before := Relationships.AuthorOfArticle(st, article);
      r.result.Success? ==>
        Relationships.AuthorOfArticle(r.store, article) ==
          if before.Some? then before
          else if article.authorId == r.result.value.id then Some(r.result.value)
          else None
  {
    var r := AddAuthor(st, name);
    if r.result.Success? {
      FindAppend(st.authors, [r.result.value], (u: Author) => u.id == article.authorId);
    }
  }
}
