/** The record store: two ordered, append-only collections of authors and
    articles held in process memory, the id discipline that the inserts
    rely on, and the reply the mutations and the root-field dispatch produce. */
module Records {
  import opened Wrappers

  datatype Author = Author(id: int, name: string)

  /** `authorId` is meant to name an author but nothing enforces it. */
  datatype Article = Article(id: int, authorId: int, title: string, content: string)

  datatype Store = Store(authors: seq<Author>, articles: seq<Article>)

  /** The exception an insert raises when there is no last record to read an id from. */
  datatype Fault = NoLastRecord

  /** The store after a mutation or a dispatched root field ran, and what it produced. */
  datatype Reply<+T> = Reply(store: Store, result: Result<T, Fault>)

  function AuthorIds(authors: seq<Author>): (ids: seq<int>)
    ensures |ids| == |authors|
    ensures forall i :: 0 <= i < |authors| ==> ids[i] == authors[i].id
  {
    seq(|authors|, i requires 0 <= i < |authors| => authors[i].id)
  }

  function ArticleIds(articles: seq<Article>): (ids: seq<int>)
    ensures |ids| == |articles|
    ensures forall i :: 0 <= i < |articles| ==> ids[i] == articles[i].id
  {
    seq(|articles|, i requires 0 <= i < |articles| => articles[i].id)
  }

  ghost predicate StrictlyIncreasing(ids: seq<int>)
  {
    forall i, j :: 0 <= i < j < |ids| ==> ids[i] < ids[j]
  }

  ghost predicate Distinct(ids: seq<int>)
  {
    forall i, j :: 0 <= i < |ids| && 0 <= j < |ids| && i != j ==> ids[i] != ids[j]
  }

  /** The invariant the id scheme needs: in both collections the ids
      strictly increase in store order. */
  ghost predicate Valid(st: Store)
  {
    && StrictlyIncreasing(AuthorIds(st.authors))
    && StrictlyIncreasing(ArticleIds(st.articles))
  }

  /** The id an insert assigns: the last record's id plus one. */
  function NextId(ids: seq<int>): (n: int)
    requires |ids| > 0
    ensures StrictlyIncreasing(ids) ==> forall i :: 0 <= i < |ids| ==> ids[i] < n
    ensures n - 1 in ids
  {
    ids[|ids| - 1] + 1
  }

  lemma IncreasingIsDistinct(ids: seq<int>)
    requires StrictlyIncreasing(ids)
    ensures Distinct(ids)
  {
    forall i, j | 0 <= i < |ids| && 0 <= j < |ids| && i != j
      ensures ids[i] != ids[j]
    {
      if i < j { assert ids[i] < ids[j]; } else { assert ids[j] < ids[i]; }
    }
  }

  /** Appending the next id keeps the ids strictly increasing, hence distinct. */
  lemma {:induction false} AppendNextIdKeepsIncreasing(ids: seq<int>)
    requires |ids| > 0 && StrictlyIncreasing(ids)
    ensures StrictlyIncreasing(ids + [NextId(ids)])
    ensures Distinct(ids + [NextId(ids)])
  {
    var ids' := ids + [NextId(ids)];
    forall i, j | 0 <= i < j < |ids'|
      ensures ids'[i] < ids'[j]
    {
      if j < |ids| {
        assert ids'[i] == ids[i] && ids'[j] == ids[j];
      } else {
        assert ids'[i] == ids[i];
      }
    }
    IncreasingIsDistinct(ids');
  }

  lemma AuthorIdsAppend(authors: seq<Author>, u: Author)
    ensures AuthorIds(authors + [u]) == AuthorIds(authors) + [u.id]
  {
  }

  lemma ArticleIdsAppend(articles: seq<Article>, a: Article)
    ensures ArticleIds(articles + [a]) == ArticleIds(articles) + [a.id]
  {
  }
}
