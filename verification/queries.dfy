/** The read-only root queries: `articles`, `authors`, `article(id)` and
    `author(id)`. The `id` argument is a nullable GraphQL `Int`, so it is an
    `Option<int>`; an absent id matches no record. */
module Queries {
  import opened Wrappers
  import opened Records
  import opened Scan

  /** `articles`: the whole article collection, in insertion order. */
  function ListArticles(st: Store): seq<Article>
  {
    st.articles
  }

  /** `authors`: the whole author collection, in insertion order. */
  function ListAuthors(st: Store): seq<Author>
  {
    st.authors
  }

  /** `article(id)`: the first article carrying `id`, or null. */
  function ArticleById(st: Store, id: Option<int>): (r: Option<Article>)
    ensures r.None? <==> id.None? || forall a :: a in st.articles ==> a.id != id.value
    ensures r.Some? ==> id.Some? && r.value in st.articles && r.value.id == id.value
    ensures r.Some? ==>
      exists i :: 0 <= i < |st.articles| && st.articles[i] == r.value &&
        forall j :: 0 <= j < i ==> st.articles[j].id != id.value
  {
    match id
    case None => None
    case Some(k) => Find(st.articles, (a: Article) => a.id == k)
  }

  /** `author(id)`: the first author carrying `id`, or null. */
  function AuthorById(st: Store, id: Option<int>): (r: Option<Author>)
    ensures r.None? <==> id.None? || forall u :: u in st.authors ==> u.id != id.value
    ensures r.Some? ==> id.Some? && r.value in st.authors && r.value.id == id.value
    ensures r.Some? ==>
      exists i :: 0 <= i < |st.authors| && st.authors[i] == r.value &&
        forall j :: 0 <= j < i ==> st.authors[j].id != id.value
  {
    match id
    case None => None
    case Some(k) => Find(st.authors, (u: Author) => u.id == k)
  }

  /** With distinct article ids, `article(id)` returns a record exactly when
      the store holds a record with that id, and then it is that record. */
  lemma ArticleByIdExact(st: Store, k: int, a: Article)
    requires Distinct(ArticleIds(st.articles))
    ensures ArticleById(st, Some(k)) == Some(a) <==> a in st.articles && a.id == k
  {
    if a in st.articles && a.id == k {
      var r := ArticleById(st, Some(k));
      var i :| 0 <= i < |st.articles| && st.articles[i] == r.value;
      var m :| 0 <= m < |st.articles| && st.articles[m] == a;
      assert ArticleIds(st.articles)[i] == ArticleIds(st.articles)[m];
    }
  }

  /** With distinct author ids, `author(id)` returns a record exactly when
      the store holds a record with that id, and then it is that record. */
  lemma AuthorByIdExact(st: Store, k: int, u: Author)
    requires Distinct(AuthorIds(st.authors))
    ensures AuthorById(st, Some(k)) == Some(u) <==> u in st.authors && u.id == k
  {
    if u in st.authors && u.id == k {
      var r := AuthorById(st, Some(k));
      var i :| 0 <= i < |st.authors| && st.authors[i] == r.value;
      var m :| 0 <= m < |st.authors| && st.authors[m] == u;
      assert AuthorIds(st.authors)[i] == AuthorIds(st.authors)[m];
    }
  }
}
