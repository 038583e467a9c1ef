/** The scraper: `scrapSingle` (URL, fetch, extract, decode, map) and `Scrap`
    (one task per locale and category, results merged under a lock).

    The page getter and the JSON decoder are collaborators whose code is not
    modelled: they are the two functions held by `Scraper`. */
module Scrap {
  import opened Wrappers
  import opened Bootstrap
  import opened Products
  import Merge

  /** An error from the page getter (transport failure, non-200 status, body read). */
  datatype GetError = GetError(message: string)

  /** An error from `json.Unmarshal`. */
  datatype DecodeError = DecodeError(message: string)

  /** The errors `scrapSingle` returns, one per stage. `CannotMatchRegex` is the
      sentinel `ErrCannotMatchRegex`; the other two wrap the stage's cause. */
  datatype ScrapError =
    | RetrievingUrl(url: string, getError: GetError)
    | CannotMatchRegex
    | UnmarshallingJson(decodeError: DecodeError)

  type Getter = string -> Result<seq<byte>, GetError>

  /** `json.Unmarshal` of the captured text into the `tiles` array. */
  type Decoder = string -> Result<seq<Tile>, DecodeError>

  datatype Scraper = Scraper(getter: Getter, decoder: Decoder)

  /** One unit of work: a (locale, category) pair. */
  datatype Task = Task(locale: string, category: string)

  /** What `scrapSingle` returns: the products and the error, nil as `None`. */
  datatype Single = Single(products: seq<Product>, err: Option<ScrapError>)

  const UrlPrefix: string := "https://www.apple.com/"
  const UrlInfix: string := "/shop/refurbished/"

  /** The page a task fetches. For a locale without `/`, the locale and the
      category can be read back from it. */
  function TaskUrl(locale: string, category: string): (url: string)
    ensures |UrlPrefix| <= |url| && url[..|UrlPrefix|] == UrlPrefix
    ensures '/' !in locale ==> ParseTaskUrl(url) == Some(Task(locale, category))
  {
    TaskUrlRoundTrip(locale, category);
    UrlPrefix + locale + UrlInfix + category
  }

  /** Reads the locale and category back from a task URL, taking the locale to
      end at the first `/` after the host. */
  function ParseTaskUrl(url: string): Option<Task> {
    if |url| < |UrlPrefix| || url[..|UrlPrefix|] != UrlPrefix then None
    else
      var rest := url[|UrlPrefix|..];
      var locale := Strings.FirstField(rest, '/');
      var tail := rest[|locale|..];
      if |tail| < |UrlInfix| || tail[..|UrlInfix|] != UrlInfix then None
      else Some(Task(locale, tail[|UrlInfix|..]))
  }

  /** The URL template names its task: for a locale without `/`, both parameters
      can be read back from the formatted URL. */
  lemma TaskUrlRoundTrip(locale: string, category: string)
    ensures '/' !in locale ==>
              ParseTaskUrl(UrlPrefix + locale + UrlInfix + category) == Some(Task(locale, category))
  {
    if '/' !in locale {
      var url := UrlPrefix + locale + UrlInfix + category;
      assert url == UrlPrefix + (locale + UrlInfix + category);
      assert url[..|UrlPrefix|] == UrlPrefix;
      var rest := url[|UrlPrefix|..];
      assert rest == locale + (UrlInfix + category);
      assert rest[..|locale|] == locale;
      assert rest[|locale|] == UrlInfix[0] == '/';
      Strings.FirstFieldUnique(rest, '/', locale);
      var tail := rest[|locale|..];
      assert tail == UrlInfix + category;
      assert tail[..|UrlInfix|] == UrlInfix;
      assert tail[|UrlInfix|..] == category;
    }
  }

  /** Distinct tasks (over locales without `/`) fetch distinct pages. */
  lemma TaskUrlInjective(l1: string, c1: string, l2: string, c2: string)
    requires '/' !in l1 && '/' !in l2
    requires TaskUrl(l1, c1) == TaskUrl(l2, c2)
    ensures l1 == l2 && c1 == c2
  {
  }

  /** `scrapSingle`: fetch the task's page, extract the embedded data, decode it
      and build the products. The first failing stage decides the error, and an
      error always comes with no products. */
  function ScrapSingle(s: Scraper, locale: string, category: string): (r: Single)
    ensures r.err.Some? ==> r.products == []
    ensures forall i :: 0 <= i < |r.products| ==>
              r.products[i].locale == locale && r.products[i].category == category
    ensures (r.err.Some? && r.err.value.RetrievingUrl?) <==> s.getter(TaskUrl(locale, category)).Failure?
    ensures r.err.Some? && r.err.value.RetrievingUrl? ==> r.err.value.url == TaskUrl(locale, category)
    ensures r.err == Some(CannotMatchRegex) <==>
              s.getter(TaskUrl(locale, category)).Success? && NoMatch(BodyText(s.getter(TaskUrl(locale, category)).value))
  {
    var url := TaskUrl(locale, category);
    match s.getter(url)
    case Failure(e) => Single([], Some(RetrievingUrl(url, e)))
    case Success(body) =>
      match ExtractBootstrap(body)
      case None => Single([], Some(CannotMatchRegex))
      case Some(capture) =>
        match s.decoder(capture)
        case Failure(e) => Single([], Some(UnmarshallingJson(e)))
        case Success(tiles) => Single(ToProducts(tiles, locale, category), None)
  }

  /** A failed fetch ends the task: its error wraps the getter's, and neither
      extraction nor decoding has any say in the outcome. */
  lemma FetchFailureShortCircuits(s: Scraper, d: Decoder, locale: string, category: string, e: GetError)
    requires s.getter(TaskUrl(locale, category)) == Failure(e)
    ensures ScrapSingle(s, locale, category) == Single([], Some(RetrievingUrl(TaskUrl(locale, category), e)))
    ensures ScrapSingle(s.(decoder := d), locale, category) == ScrapSingle(s, locale, category)
  {
  }

  /** A page without the embedded data gives exactly the sentinel, whatever the decoder does. */
  lemma NoMatchGivesSentinel(s: Scraper, d: Decoder, locale: string, category: string, body: seq<byte>)
    requires s.getter(TaskUrl(locale, category)) == Success(body)
    requires NoMatch(BodyText(body))
    ensures ScrapSingle(s, locale, category) == Single([], Some(CannotMatchRegex))
    ensures ScrapSingle(s.(decoder := d), locale, category) == ScrapSingle(s, locale, category)
  {
  }

  /** The decoder is handed the capture of the leftmost-first match; if it fails,
      the task fails with its error wrapped. */
  lemma DecodeFailure(s: Scraper, locale: string, category: string, body: seq<byte>, m: Match, e: DecodeError)
    requires s.getter(TaskUrl(locale, category)) == Success(body)
    requires IsLeftmostFirst(BodyText(body), m)
    requires s.decoder(m.capture) == Failure(e)
    ensures ScrapSingle(s, locale, category) == Single([], Some(UnmarshallingJson(e)))
  {
    LeftmostFirstUnique(BodyText(body), FindSubmatch(BodyText(body)).value, m);
  }

  /** On success there is one product per tile, in tile order: the scalar fields
      are copied unchanged, both URLs lose exactly their query string, and the
      task's locale and category are attached. No tiles means no products and no error. */
  lemma DecodeSuccess(s: Scraper, locale: string, category: string, body: seq<byte>, m: Match, tiles: seq<Tile>)
    requires s.getter(TaskUrl(locale, category)) == Success(body)
    requires IsLeftmostFirst(BodyText(body), m)
    requires s.decoder(m.capture) == Success(tiles)
    ensures var r := ScrapSingle(s, locale, category);
            && r.err.None?
            && |r.products| == |tiles|
            && forall i :: 0 <= i < |tiles| ==>
                 var p, t := r.products[i], tiles[i];
                 && p.id == t.partNumber
                 && p.family == t.dimensions.refurbClearModel
                 && p.color == t.dimensions.dimensionColor
                 && p.capacity == t.dimensions.dimensionCapacity
                 && p.name == t.title
                 && p.price == t.price.seoPrice
                 && p.originalPrice == t.price.originalProductAmount
                 && Strings.FirstField(t.imageSrc, '?') == p.imageUrl
                 && Strings.FirstField(t.productDetailsUrl, '?') == p.storeUrl
                 && p.locale == locale && p.category == category
  {
    LeftmostFirstUnique(BodyText(body), FindSubmatch(BodyText(body)).value, m);
  }

  /** The getter is consulted for the task's URL only. */
  lemma OnlyTaskUrlFetched(s1: Scraper, s2: Scraper, locale: string, category: string)
    requires s1.getter(TaskUrl(locale, category)) == s2.getter(TaskUrl(locale, category))
    requires s1.decoder == s2.decoder
    ensures ScrapSingle(s1, locale, category) == ScrapSingle(s2, locale, category)
  {
  }

  /** The tasks of one locale, in category order. */
  function Row(locale: string, categories: seq<string>): (ts: seq<Task>)
    ensures |ts| == |categories|
    ensures forall t :: t in ts <==> t.locale == locale && t.category in categories
  {
    RowCovers(locale, categories);
    seq(|categories|, j requires 0 <= j < |categories| => Task(locale, categories[j]))
  }

  lemma RowCovers(locale: string, categories: seq<string>)
    ensures forall c :: c in categories ==>
              Task(locale, c) in seq(|categories|, j requires 0 <= j < |categories| => Task(locale, categories[j]))
  {
    var ts := seq(|categories|, j requires 0 <= j < |categories| => Task(locale, categories[j]));
    forall c | c in categories
      ensures Task(locale, c) in ts
    {
      var j :| 0 <= j < |categories| && categories[j] == c;
      assert ts[j] == Task(locale, c);
    }
  }

  /** The cartesian product of locales and categories, locale-major as the
      nested loops visit it. */
  function Tasks(locales: seq<string>, categories: seq<string>): (ts: seq<Task>)
    ensures |ts| == |locales| * |categories|
    decreases |locales|
  {
    if |locales| == 0 then []
    else Row(locales[0], categories) + Tasks(locales[1..], categories)
  }

  /** A task is in the list exactly when its locale and its category are given. */
  lemma {:induction false} TasksMembership(locales: seq<string>, categories: seq<string>)
    ensures forall t :: t in Tasks(locales, categories) <==> t.locale in locales && t.category in categories
    decreases |locales|
  {
    if |locales| > 0 {
      TasksMembership(locales[1..], categories);
      var row := Row(locales[0], categories);
      assert locales == [locales[0]] + locales[1..];
    }
  }

  lemma MulStep(i: nat, n: nat)
    requires i > 0
    ensures i * n == (i - 1) * n + n
  {
  }

  /** Task `i * |categories| + j` is the pair of locale `i` and category `j`. */
  lemma {:induction false} TasksIndex(locales: seq<string>, categories: seq<string>, i: nat, j: nat)
    requires i < |locales| && j < |categories|
    ensures i * |categories| + j < |Tasks(locales, categories)|
    ensures Tasks(locales, categories)[i * |categories| + j] == Task(locales[i], categories[j])
    decreases i
  {
    var n := |categories|;
    var ts := Tasks(locales, categories);
    if i > 0 {
      var row, rest := Row(locales[0], categories), Tasks(locales[1..], categories);
      var k := (i - 1) * n + j;
      assert i * n + j == n + k by { MulStep(i, n); }
      TasksIndex(locales[1..], categories, i - 1, j);
      assert ts == row + rest;
      assert ts[n + k] == rest[k] by { assert |row| == n && k < |rest|; }
    } else {
      assert ts[i * n + j] == ts[j] by { assert i * n == 0; }
    }
  }

  /** The outcome of each task: `scrapSingle` of a fixed scraper. The merge
      facts below hold for any such function; `ScrapWork(s)` is the one `Scrap` runs. */
  type Work = Task -> Single

  function ScrapWork(s: Scraper): Work {
    (t: Task) => ScrapSingle(s, t.locale, t.category)
  }

  /** Every product `work` returns for `t` carries `t`'s locale and category. */
  predicate Tagged(work: Work, t: Task) {
    forall p :: p in work(t).products ==> p.locale == t.locale && p.category == t.category
  }

  /** `work` returns no products for `t` when it returns an error. */
  predicate FailsEmpty(work: Work, t: Task) {
    work(t).err.Some? ==> work(t).products == []
  }

  /** `scrapSingle` tags its products and fails with none, for every task. */
  lemma ScrapWorkWellBehaved(s: Scraper, t: Task)
    ensures Tagged(ScrapWork(s), t) && FailsEmpty(ScrapWork(s), t)
  {
    var r := ScrapSingle(s, t.locale, t.category);
    forall p | p in r.products
      ensures p.locale == t.locale && p.category == t.category
    {
      var i :| 0 <= i < |r.products| && r.products[i] == p;
    }
  }

  /** The product list a task contributes to the merge. */
  function Contribution(work: Work, t: Task): seq<Product> {
    work(t).products
  }

  /** The merge of the contributions of `ts`, appended in the order of `ts`. */
  function Gather(work: Work, ts: seq<Task>): seq<Product> {
    Merge.Flatten(Merge.MapSeq(t => Contribution(work, t), ts))
  }

  /** Merging one more task appends its contribution. */
  lemma GatherSnoc(work: Work, ts: seq<Task>, t: Task)
    ensures Gather(work, ts + [t]) == Gather(work, ts) + Contribution(work, t)
  {
    var f := (t': Task) => Contribution(work, t');
    assert Merge.MapSeq(f, ts + [t])[..|ts|] == Merge.MapSeq(f, ts);
  }

  /** The merged multiset is the same for every order of the tasks. */
  lemma GatherReorder(work: Work, a: seq<Task>, b: seq<Task>)
    requires multiset(a) == multiset(b)
    ensures multiset(Gather(work, a)) == multiset(Gather(work, b))
  {
    var f := (t: Task) => Contribution(work, t);
    Merge.MapReorder(f, a, b);
    Merge.FlattenReorder(Merge.MapSeq(f, a), Merge.MapSeq(f, b));
  }

  /** Every merged product comes from one of the tasks and carries that task's parameters. */
  lemma {:induction false} GatherProvenance(work: Work, ts: seq<Task>)
    requires forall t :: t in ts ==> Tagged(work, t)
    ensures forall p :: p in Gather(work, ts) ==> Task(p.locale, p.category) in ts
    decreases |ts|
  {
    if |ts| > 0 {
      var init, last := ts[..|ts| - 1], ts[|ts| - 1];
      assert ts == init + [last];
      assert Tagged(work, last);
      GatherProvenance(work, init);
      GatherSnoc(work, init, last);
    }
  }

  /** Each task's products are all in the merge, as many times as the task produced them. */
  lemma {:induction false} ContributionIncluded(work: Work, ts: seq<Task>, t: Task)
    requires t in ts
    ensures multiset(Contribution(work, t)) <= multiset(Gather(work, ts))
    decreases |ts|
  {
    var init, last := ts[..|ts| - 1], ts[|ts| - 1];
    assert ts == init + [last];
    GatherSnoc(work, init, last);
    if t != last {
      ContributionIncluded(work, init, t);
    }
  }

  /** The tasks of `ts` that end without an error, in order. */
  function Succeeded(work: Work, ts: seq<Task>): (r: seq<Task>)
    ensures forall t :: t in r <==> t in ts && work(t).err.None?
    decreases |ts|
  {
    if |ts| == 0 then []
    else
      var init, last := ts[..|ts| - 1], ts[|ts| - 1];
      assert ts == init + [last];
      if work(last).err.None? then Succeeded(work, init) + [last]
      else Succeeded(work, init)
  }

  /** Failed tasks add nothing: merging only the tasks that succeeded gives the same list. */
  lemma {:induction false} FailedTasksContributeNothing(work: Work, ts: seq<Task>)
    requires forall t :: t in ts ==> FailsEmpty(work, t)
    ensures Gather(work, Succeeded(work, ts)) == Gather(work, ts)
    decreases |ts|
  {
    if |ts| > 0 {
      var init, last := ts[..|ts| - 1], ts[|ts| - 1];
      assert ts == init + [last];
      FailedTasksContributeNothing(work, init);
      GatherSnoc(work, init, last);
      if work(last).err.None? {
        GatherSnoc(work, Succeeded(work, init), last);
      } else {
        assert FailsEmpty(work, last);
      }
    }
  }

  /** For the real scraper: a run's merge is the merge of its successful tasks alone. */
  lemma ScrapFailuresContributeNothing(s: Scraper, locales: seq<string>, categories: seq<string>)
    ensures var work, ts := ScrapWork(s), Tasks(locales, categories);
            Gather(work, Succeeded(work, ts)) == Gather(work, ts)
  {
    var work, ts := ScrapWork(s), Tasks(locales, categories);
    forall t | t in ts
      ensures FailsEmpty(work, t)
    {
      ScrapWorkWellBehaved(s, t);
    }
    FailedTasksContributeNothing(work, ts);
  }

  /** Tasks that each contribute `r` products merge into `|ts| * r` products. */
  lemma {:induction false} UniformGather(work: Work, ts: seq<Task>, r: nat)
    requires forall t :: t in ts ==> |Contribution(work, t)| == r
    ensures |Gather(work, ts)| == |ts| * r
    decreases |ts|
  {
    if |ts| > 0 {
      var init, last := ts[..|ts| - 1], ts[|ts| - 1];
      assert ts == init + [last];
      UniformGather(work, init, r);
      GatherSnoc(work, init, last);
      MulStep(|ts|, r);
    }
  }

  /** With every task contributing `r` products, the merge of a run over
      locales and categories holds `|locales| * |categories| * r` products. */
  lemma UniformYield(work: Work, locales: seq<string>, categories: seq<string>, r: nat)
    requires forall t :: t in Tasks(locales, categories) ==> |Contribution(work, t)| == r
    ensures |Gather(work, Tasks(locales, categories))| == |locales| * |categories| * r
  {
    UniformGather(work, Tasks(locales, categories), r);
  }

  /** `Scrap`: run every task and append each task's products under the lock.
      `schedule` is the order in which the workers took the lock: any reordering
      of the tasks. The result holds exactly the tasks' products, whatever the
      schedule. */
  method Scrap(s: Scraper, locales: seq<string>, categories: seq<string>, schedule: seq<Task>)
    returns (products: seq<Product>)
    requires multiset(schedule) == multiset(Tasks(locales, categories))
    ensures products == Gather(ScrapWork(s), schedule)
    ensures multiset(products) == multiset(Gather(ScrapWork(s), Tasks(locales, categories)))
    ensures |products| == Merge.TotalLength(Merge.MapSeq(t => Contribution(ScrapWork(s), t), Tasks(locales, categories)))
    ensures forall p :: p in products ==> p.locale in locales && p.category in categories
  {
    products := [];
    for k := 0 to |schedule|
      invariant products == Gather(ScrapWork(s), schedule[..k])
    {
      var task := schedule[k];
      var single := ScrapSingle(s, task.locale, task.category);
      assert schedule[..k + 1] == schedule[..k] + [task];
      GatherSnoc(ScrapWork(s), schedule[..k], task);
      products := products + single.products;
    }
    assert schedule[..|schedule|] == schedule;
    var tasks := Tasks(locales, categories);
    GatherReorder(ScrapWork(s), schedule, tasks);
    Merge.FlattenLength(Merge.MapSeq(t => Contribution(ScrapWork(s), t), tasks));
    assert |products| == |multiset(products)|;
    forall t | t in tasks
      ensures Tagged(ScrapWork(s), t)
    {
      ScrapWorkWellBehaved(s, t);
    }
    GatherProvenance(ScrapWork(s), tasks);
    TasksMembership(locales, categories);
    forall p | p in products
      ensures p.locale in locales && p.category in categories
    {
      assert p in multiset(Gather(ScrapWork(s), tasks));
    }
  }
}
