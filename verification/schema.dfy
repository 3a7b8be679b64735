/** The root `Query` and `Mutation` fields, dispatched over one store. The
    transport (HTTP, parsing, argument validation, serialisation) hands a
    typed operation to `Execute` and gets back the new store and the value. */
module Schema {
  import opened Wrappers
  import opened Records
  import Queries
  import Relationships
  import Mutations

  /** One root field with its already validated arguments. */
  datatype Operation =
    | QueryArticles
    | QueryAuthors
    | QueryArticle(id: Option<int>)
    | QueryAuthor(id: Option<int>)
    | MutateAddArticle(authorId: int, title: string, content: string)
    | MutateAddAuthor(name: string)
  {
    predicate IsQuery()
    {
      QueryArticles? || QueryAuthors? || QueryArticle? || QueryAuthor?
    }
  }

  /** What a root field resolves to. */
  datatype Value =
    | ArticleList(articles: seq<Article>)
    | AuthorList(authors: seq<Author>)
    | ArticleOrNull(article: Option<Article>)
    | AuthorOrNull(author: Option<Author>)
    | CreatedArticle(createdArticle: Article)
    | CreatedAuthor(createdAuthor: Author)

  /** `st` is a prefix of `st'` in both collections. */
  ghost predicate AppendOnly(st: Store, st': Store)
  {
    && |st.authors| <= |st'.authors| && st'.authors[..|st.authors|] == st.authors
    && |st.articles| <= |st'.articles| && st'.articles[..|st.articles|] == st.articles
  }

  function Execute(st: Store, op: Operation): (r: Reply<Value>)
    ensures op.IsQuery() ==> r.store == st && r.result.Success?
    ensures op.QueryArticles? ==> r.result.value == ArticleList(st.articles)
    ensures op.QueryAuthors? ==> r.result.value == AuthorList(st.authors)
    ensures op.QueryArticle? ==>
      && r.result.value.ArticleOrNull?
      && (r.result.value.article.None? <==>
            op.id.None? || forall a :: a in st.articles ==> a.id != op.id.value)
      && (r.result.value.article.Some? ==>
            r.result.value.article.value in st.articles && r.result.value.article.value.id == op.id.value)
      && (r.result.value.article.Some? ==>
            exists i :: 0 <= i < |st.articles| && st.articles[i] == r.result.value.article.value &&
              forall j :: 0 <= j < i ==> st.articles[j].id != op.id.value)
    ensures op.QueryAuthor? ==>
      && r.result.value.AuthorOrNull?
      && (r.result.value.author.None? <==>
            op.id.None? || forall u :: u in st.authors ==> u.id != op.id.value)
      && (r.result.value.author.Some? ==>
            r.result.value.author.value in st.authors && r.result.value.author.value.id == op.id.value)
      && (r.result.value.author.Some? ==>
            exists i :: 0 <= i < |st.authors| && st.authors[i] == r.result.value.author.value &&
              forall j :: 0 <= j < i ==> st.authors[j].id != op.id.value)
    ensures op.MutateAddArticle? ==>
      && (r.result.Success? <==> |st.articles| > 0)
      && (r.result.Success? ==>
            && r.result.value.CreatedArticle?
            && r.result.value.createdArticle.id == st.articles[|st.articles| - 1].id + 1
            && r.result.value.createdArticle.authorId == op.authorId
            && r.result.value.createdArticle.title == op.title
            && r.result.value.createdArticle.content == op.content
            && r.store.articles == st.articles + [r.result.value.createdArticle]
            && r.store.authors == st.authors)
    ensures op.MutateAddAuthor? ==>
      && (r.result.Success? <==> |st.authors| > 0)
      && (r.result.Success? ==>
            && r.result.value.CreatedAuthor?
            && r.result.value.createdAuthor.id == st.authors[|st.authors| - 1].id + 1
            && r.result.value.createdAuthor.name == op.name
            && r.store.authors == st.authors + [r.result.value.createdAuthor]
            && r.store.articles == st.articles)
    ensures r.result.Failure? ==> r.store == st
    ensures AppendOnly(st, r.store)
    ensures |r.store.authors| + |r.store.articles| <= |st.authors| + |st.articles| + 1
  {
    match op
    case QueryArticles => Reply(st, Success(ArticleList(Queries.ListArticles(st))))
    case QueryAuthors => Reply(st, Success(AuthorList(Queries.ListAuthors(st))))
    case QueryArticle(id) => Reply(st, Success(ArticleOrNull(Queries.ArticleById(st, id))))
    case QueryAuthor(id) => Reply(st, Success(AuthorOrNull(Queries.AuthorById(st, id))))
    case MutateAddArticle(authorId, title, content) =>
      var r := Mutations.AddArticle(st, authorId, title, content);
      assert r.store.articles[..|st.articles|] == st.articles;
      (match r.result
       case Success(a) => Reply(r.store, Success(CreatedArticle(a)))
       case Failure(e) => Reply(r.store, Failure(e)))
    case MutateAddAuthor(name) =>
      var r := Mutations.AddAuthor(st, name);
      assert r.store.authors[..|st.authors|] == st.authors;
      (match r.result
       case Success(u) => Reply(r.store, Success(CreatedAuthor(u)))
       case Failure(e) => Reply(r.store, Failure(e)))
  }

  /** Every root field keeps the store's id invariant. */
  lemma ExecuteKeepsValid(st: Store, op: Operation)
    requires Valid(st)
    ensures Valid(Execute(st, op).store)
  {
    match op
    case MutateAddArticle(authorId, title, content) =>
      Mutations.AddArticleKeepsValid(st, authorId, title, content);
    case MutateAddAuthor(name) =>
      Mutations.AddAuthorKeepsValid(st, name);
    case _ =>
  }

  /** The store after the operations run one after another. */
  function Run(st: Store, ops: seq<Operation>): Store
    decreases |ops|
  {
    if |ops| == 0 then st else Run(Execute(st, ops[0]).store, ops[1..])
  }

  /** Running a sequence of operations keeps the id invariant throughout. */
  lemma {:induction false} RunKeepsValid(st: Store, ops: seq<Operation>)
    requires Valid(st)
    ensures Valid(Run(st, ops))
    decreases |ops|
  {
    if |ops| > 0 {
      ExecuteKeepsValid(st, ops[0]);
      RunKeepsValid(Execute(st, ops[0]).store, ops[1..]);
    }
  }

  /** One author and one article, both with id 1. */
  function Seed(): Store
  {
    Store([Author(1, "A")], [Article(1, 1, "T", "C")])
  }

  /** Adding an article to the seed store creates id 2 with the given
      fields, and listing articles then yields both in insertion order. */
  lemma SeedAddArticleScenario()
    ensures
      var r := Execute(Seed(), MutateAddArticle(1, "T2", "C2"));
      && r.result == Success(CreatedArticle(Article(2, 1, "T2", "C2")))
      && Execute(r.store, QueryArticles).result ==
           Success(ArticleList([Article(1, 1, "T", "C"), Article(2, 1, "T2", "C2")]))
  {
    var r := Mutations.AddArticle(Seed(), 1, "T2", "C2");
    assert r.store.articles == [Article(1, 1, "T", "C"), Article(2, 1, "T2", "C2")];
    var e := Execute(Seed(), MutateAddArticle(1, "T2", "C2"));
    assert e.store == r.store;
  }

  /** On the seed store, author 1's articles are exactly article 1, and
      there is no author 99. */
  lemma SeedRelationScenario()
    ensures Queries.AuthorById(Seed(), Some(1)) == Some(Author(1, "A"))
    ensures Relationships.ArticlesOfAuthor(Seed(), Author(1, "A")) == [Article(1, 1, "T", "C")]
    ensures Queries.AuthorById(Seed(), Some(99)).None?
  {
  }
}
