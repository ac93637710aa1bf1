/**
 * The article listing: the categories of the fetched articles without
 * repetition, in order of first appearance (a JavaScript `Set` keeps
 * insertion order), and one section per category holding that category's
 * articles in fetched order.
 */
module Articles {

  /** An article as the server sends it; `date` is a JavaScript time value. */
  datatype Article = Article(title: string, text: string, category: string, language: string, date: int)

  /** No value occurs twice. */
  predicate NoDuplicates<T(==)>(s: seq<T>) {
    forall i, j :: 0 <= i < j < |s| ==> s[i] != s[j]
  }

  /**
   * `[...new Set(xs)]`: the values inserted one after another into a set,
   * read back in insertion order; a value already present is not inserted
   * again.
   */
  function Dedup(xs: seq<string>): (r: seq<string>)
    ensures NoDuplicates(r)
    ensures forall x :: x in r <==> x in xs
    ensures |r| <= |xs|
    decreases |xs|
  {
    if xs == [] then []
    else
      var d, last := Dedup(xs[..|xs| - 1]), xs[|xs| - 1];
      assert xs == xs[..|xs| - 1] + [last];
      if last in d then d else d + [last]
  }

  /** The position of the first occurrence of `x`. */
  function FirstIndex(xs: seq<string>, x: string): (i: nat)
    requires x in xs
    ensures i < |xs| && xs[i] == x
    ensures forall j :: 0 <= j < i ==> xs[j] != x
  {
    if xs[0] == x then 0 else 1 + FirstIndex(xs[1..], x)
  }

  /** Appending a value does not move the first occurrence of a value already present. */
  lemma FirstIndexSnoc(init: seq<string>, last: string, x: string)
    requires x in init
    ensures FirstIndex(init + [last], x) == FirstIndex(init, x)
  {
    var xs, k := init + [last], FirstIndex(init, x);
    assert xs[k] == x;
    assert forall j :: 0 <= j < k ==> xs[j] == init[j];
  }

  /** The set keeps the order in which values first appear. */
  lemma {:induction false} DedupFirstAppearance(xs: seq<string>)
    ensures forall k, l :: 0 <= k < l < |Dedup(xs)| ==> FirstIndex(xs, Dedup(xs)[k]) < FirstIndex(xs, Dedup(xs)[l])
    decreases |xs|
  {
    if xs != [] {
      var init, last := xs[..|xs| - 1], xs[|xs| - 1];
      var d := Dedup(init);
      DedupFirstAppearance(init);
      assert xs == init + [last];
      forall x | x in init ensures FirstIndex(xs, x) == FirstIndex(init, x) {
        FirstIndexSnoc(init, last, x);
      }
      if last !in d {
        assert FirstIndex(xs, last) == |init|;
      }
    }
  }

  /** `articles.map((a) => a.category)` */
  function CategoryList(articles: seq<Article>): (cs: seq<string>)
    ensures |cs| == |articles|
  {
    seq(|articles|, i requires 0 <= i < |articles| => articles[i].category)
  }

  /** `categories` */
  function Categories(articles: seq<Article>): seq<string> {
    Dedup(CategoryList(articles))
  }

  /** `articles.filter((article) => article.category === category)` */
  function Section(articles: seq<Article>, category: string): (r: seq<Article>)
    ensures forall a :: a in r <==> a in articles && a.category == category
    ensures |r| <= |articles|
    decreases |articles|
  {
    if articles == [] then []
    else
      var init, last := articles[..|articles| - 1], articles[|articles| - 1];
      assert articles == init + [last];
      Section(init, category) + (if last.category == category then [last] else [])
  }

  /** Filtering distributes over concatenation, so every section keeps the fetched order. */
  lemma {:induction false} SectionAppend(a: seq<Article>, b: seq<Article>, category: string)
    ensures Section(a + b, category) == Section(a, category) + Section(b, category)
    decreases |b|
  {
    if b != [] {
      var init := b[..|b| - 1];
      assert (a + b)[..|a + b| - 1] == a + init;
      assert (a + b)[|a + b| - 1] == b[|b| - 1];
      SectionAppend(a, init, category);
    } else {
      assert a + b == a;
    }
  }

  /** The categories are listed once each and are exactly the categories of the articles. */
  lemma CategoriesListed(articles: seq<Article>)
    ensures NoDuplicates(Categories(articles))
    ensures forall c :: c in Categories(articles) <==> exists i :: 0 <= i < |articles| && articles[i].category == c
  {
    var cs := CategoryList(articles);
    forall c | c in Categories(articles) ensures exists i :: 0 <= i < |articles| && articles[i].category == c {
      var i :| 0 <= i < |cs| && cs[i] == c;
    }
    forall i | 0 <= i < |articles| ensures articles[i].category in Categories(articles) {
      assert cs[i] == articles[i].category;
    }
  }

  /** Every listed category has a section with at least one article in it. */
  lemma SectionsNotEmpty(articles: seq<Article>, c: string)
    requires c in Categories(articles)
    ensures Section(articles, c) != []
  {
    CategoriesListed(articles);
    var i :| 0 <= i < |articles| && articles[i].category == c;
    assert articles[i] in Section(articles, c);
  }

  /** The "no articles" message is shown exactly when nothing was fetched. */
  lemma EmptyMessage(articles: seq<Article>)
    ensures Categories(articles) == [] <==> articles == []
  {
    if articles != [] {
      assert CategoryList(articles)[0] in Categories(articles);
    }
  }

  /** How many times `x` occurs in `cs`. */
  function Hits(cs: seq<string>, x: string): nat {
    if cs == [] then 0 else (if cs[0] == x then 1 else 0) + Hits(cs[1..], x)
  }

  /** A value listed once in a list without duplicates is hit once. */
  lemma {:induction false} HitsOnce(cs: seq<string>, x: string)
    requires NoDuplicates(cs)
    ensures Hits(cs, x) == if x in cs then 1 else 0
    decreases |cs|
  {
    if cs != [] {
      HitsOnce(cs[1..], x);
      if cs[0] == x {
        assert x !in cs[1..] by {
          forall j | 0 <= j < |cs[1..]| ensures cs[1..][j] != x {
            assert cs[1..][j] == cs[j + 1];
          }
        }
      }
    }
  }

  /** The total length of the sections of the categories `cs`. */
  function Total(articles: seq<Article>, cs: seq<string>): nat {
    if cs == [] then 0 else |Section(articles, cs[0])| + Total(articles, cs[1..])
  }

  /** One more article adds one entry to each section of its category. */
  lemma {:induction false} TotalStep(articles: seq<Article>, a: Article, cs: seq<string>)
    ensures Total(articles + [a], cs) == Total(articles, cs) + Hits(cs, a.category)
    decreases |cs|
  {
    if cs != [] {
      TotalStep(articles, a, cs[1..]);
      assert (articles + [a])[..|articles|] == articles;
    }
  }

  /** Sections of distinct categories that cover every article hold each article once between them. */
  lemma {:induction false} SectionsPartition(articles: seq<Article>, cs: seq<string>)
    requires NoDuplicates(cs)
    requires forall i :: 0 <= i < |articles| ==> articles[i].category in cs
    ensures Total(articles, cs) == |articles|
    decreases |articles|
  {
    if articles == [] {
      TotalEmpty(cs);
    } else {
      var init, last := articles[..|articles| - 1], articles[|articles| - 1];
      SectionsPartition(init, cs);
      assert articles == init + [last];
      TotalStep(init, last, cs);
      HitsOnce(cs, last.category);
    }
  }

  /** With no articles every section is empty. */
  lemma {:induction false} TotalEmpty(cs: seq<string>)
    ensures Total([], cs) == 0
    decreases |cs|
  {
    if cs != [] {
      TotalEmpty(cs[1..]);
    }
  }

  /** The sections shown together hold as many cards as there are articles. */
  lemma SectionsCoverArticles(articles: seq<Article>)
    ensures Total(articles, Categories(articles)) == |articles|
  {
    CategoriesListed(articles);
    forall i | 0 <= i < |articles| ensures articles[i].category in Categories(articles) {
    }
    SectionsPartition(articles, Categories(articles));
  }
}
