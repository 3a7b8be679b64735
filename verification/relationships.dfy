/** The nested relation fields: `Author.articles` filters the article
    collection by `authorId`, `Article.author` scans the author collection
    for the referenced id. Neither checks that the reference is intact. */
module Relationships {
  import opened Wrappers
  import opened Records
  import opened Scan
  import Queries

  /** `Author.articles`: every article whose `authorId` is the author's id,
      in store order; empty when there are none. */
  function ArticlesOfAuthor(st: Store, author: Author): (r: seq<Article>)
    ensures forall a :: a in r <==> a in st.articles && a.authorId == author.id
    ensures forall a :: multiset(r)[a] == if a.authorId == author.id then multiset(st.articles)[a] else 0
    ensures IsSubsequence(r, st.articles)
  {
    Filter(st.articles, (a: Article) => a.authorId == author.id)
  }

  /** `Article.author`: the first author whose id is the article's
      `authorId`, or null for a dangling reference. */
  function AuthorOfArticle(st: Store, article: Article): (r: Option<Author>)
    ensures r.None? <==> forall u :: u in st.authors ==> u.id != article.authorId
    ensures r.Some? ==> r.value in st.authors && r.value.id == article.authorId
    ensures r.Some? ==>
      exists i :: 0 <= i < |st.authors| && st.authors[i] == r.value &&
        forall j :: 0 <= j < i ==> st.authors[j].id != article.authorId
  {
    Find(st.authors, (u: Author) => u.id == article.authorId)
  }

  /** Following `Article.author` is the same as asking `author(id)` for the
      article's `authorId`. */
  lemma AuthorOfArticleIsLookup(st: Store, article: Article)
    ensures AuthorOfArticle(st, article) == Queries.AuthorById(st, Some(article.authorId))
  {
    FindCongruent(st.authors,
      (u: Author) => u.id == article.authorId,
      (u: Author) => u.id == Some(article.authorId).value);
  }

  /** Going from a stored article to its author and back leads to a list
      containing the article. */
  lemma AuthorThenArticles(st: Store, article: Article, author: Author)
    requires article in st.articles
    requires AuthorOfArticle(st, article) == Some(author)
    ensures article in ArticlesOfAuthor(st, author)
  {
  }

  /** Going from a stored author to one of its articles and back leads to
      the same author, provided author ids are distinct. */
  lemma ArticlesThenAuthor(st: Store, author: Author, article: Article)
    requires Distinct(AuthorIds(st.authors))
    requires author in st.authors
    requires article in ArticlesOfAuthor(st, author)
    ensures AuthorOfArticle(st, article) == Some(author)
  {
    AuthorOfArticleIsLookup(st, article);
    Queries.AuthorByIdExact(st, article.authorId, author);
  }
}
