/** `KeywordManager` in utils/keyword_manager.py: a process-wide keyword
    cache read from a CSV file. Reading the file is the parameter `read`,
    which gives the flattened cells for an encoding or `None` when reading
    with that encoding raises; `csvExists` is `os.path.exists` on the CSV
    path. */
module Keywords {
  import opened Wrappers
  import opened Text

  /** The encodings tried, in order. */
  const Encodings: seq<string> := ["cp949", "euc-kr", "utf-8"]

  /** The keys `_create_keyword_categories` builds. */
  const CategoryNames: set<string> := {"all", "subject", "object", "action", "mood"}

  /** The loaded keywords and the lists by category. The source sets both
      class attributes together on every path, so they are one value here. */
  datatype Cache = Cache(keywords: seq<string>, byCategory: map<string, seq<string>>)

  /** The shared state: `None` until the first load. */
  datatype Manager = Manager(cache: Option<Cache>)

  /** The four classifiers; each is a placeholder that accepts every
      keyword. */
  predicate IsSubject(k: string) { true }
  predicate IsObject(k: string) { true }
  predicate IsAction(k: string) { true }
  predicate IsMood(k: string) { true }

  /** `[kw for kw in ks if p(kw)]`. */
  function Filter(ks: seq<string>, p: string -> bool): (r: seq<string>)
    ensures |r| <= |ks|
    ensures forall i :: 0 <= i < |r| ==> p(r[i])
  {
    if ks == [] then []
    else (if p(ks[0]) then [ks[0]] else []) + Filter(ks[1..], p)
  }

  /** A filter that accepts every element keeps the list as it is. */
  lemma {:induction false} FilterAll(ks: seq<string>, p: string -> bool)
    requires forall i :: 0 <= i < |ks| ==> p(ks[i])
    ensures Filter(ks, p) == ks
  {
    if ks != [] {
      FilterAll(ks[1..], p);
      assert [ks[0]] + ks[1..] == ks;
    }
  }

  /** `_create_keyword_categories()`. */
  function Categorize(ks: seq<string>): (r: map<string, seq<string>>)
    ensures r.Keys == CategoryNames
    ensures r["all"] == ks
  {
    map["all" := ks,
        "subject" := Filter(ks, IsSubject),
        "object" := Filter(ks, IsObject),
        "action" := Filter(ks, IsAction),
        "mood" := Filter(ks, IsMood)]
  }

  /** Every category holds the full keyword list, because every classifier
      accepts everything. */
  lemma CategoriesAreFull(ks: seq<string>)
    ensures forall c :: c in Categorize(ks) ==> Categorize(ks)[c] == ks
  {
    FilterAll(ks, IsSubject);
    FilterAll(ks, IsObject);
    FilterAll(ks, IsAction);
    FilterAll(ks, IsMood);
  }

  /** The first encoding, in order, whose read succeeds, with its cells. */
  function FirstRead(read: string -> Option<seq<string>>, encodings: seq<string>): (r: Option<seq<string>>)
    ensures r.None? <==> forall i :: 0 <= i < |encodings| ==> read(encodings[i]).None?
    ensures r.Some? ==> exists i :: 0 <= i < |encodings| && read(encodings[i]) == r
                                    && forall j :: 0 <= j < i ==> read(encodings[j]).None?
  {
    if encodings == [] then None
    else if read(encodings[0]).Some? then read(encodings[0])
    else
      var rest := FirstRead(read, encodings[1..]);
      assert forall i :: 0 < i < |encodings| ==> encodings[i] == encodings[1..][i - 1];
      assert rest.Some? ==> exists i :: 1 <= i < |encodings| && read(encodings[i]) == rest
                                        && forall j :: 0 <= j < i ==> read(encodings[j]).None?;
      rest
  }

  /** `load_keywords()`: without the CSV file, or when every encoding
      fails, the cache is empty and so is the category map; otherwise the
      cells of the first encoding that works are cached and categorised. */
  function LoadKeywords(csvExists: bool, read: string -> Option<seq<string>>): (r: Cache)
    ensures !csvExists || FirstRead(read, Encodings).None? ==> r == Cache([], map[])
    ensures csvExists && FirstRead(read, Encodings).Some? ==>
              r.keywords == FirstRead(read, Encodings).value && r.byCategory.Keys == CategoryNames
  {
    if !csvExists then Cache([], map[])
    else
      match FirstRead(read, Encodings)
      case None => Cache([], map[])
      case Some(ks) => Cache(ks, Categorize(ks))
  }

  /** A cache read from the file keeps, under every key, the full list. */
  predicate Coherent(c: Cache) {
    forall k :: k in c.byCategory ==> c.byCategory[k] == c.keywords
  }

  lemma LoadCoherent(csvExists: bool, read: string -> Option<seq<string>>)
    ensures Coherent(LoadKeywords(csvExists, read))
  {
    if csvExists && FirstRead(read, Encodings).Some? {
      CategoriesAreFull(FirstRead(read, Encodings).value);
    }
  }

  /** `is_loaded`: a cache exists and is not empty. */
  predicate IsLoaded(m: Manager) {
    m.cache.Some? && |m.cache.value.keywords| > 0
  }

  /** A load leaves the manager loaded exactly when the file exists and the
      first encoding that reads it gives at least one cell. */
  lemma LoadedIffCellsRead(csvExists: bool, read: string -> Option<seq<string>>)
    ensures IsLoaded(Manager(Some(LoadKeywords(csvExists, read)))) <==>
              csvExists && exists i :: 0 <= i < |Encodings| && read(Encodings[i]).Some? && read(Encodings[i]).value != []
                                       && forall j :: 0 <= j < i ==> read(Encodings[j]).None?
  {
    var r := FirstRead(read, Encodings);
    if csvExists && r.Some? {
      var i :| 0 <= i < |Encodings| && read(Encodings[i]) == r && forall j :: 0 <= j < i ==> read(Encodings[j]).None?;
      forall i' | 0 <= i' < |Encodings| && read(Encodings[i']).Some? && forall j :: 0 <= j < i' ==> read(Encodings[j]).None?
        ensures read(Encodings[i']) == r
      {
        assert !(i < i') && !(i' < i);
      }
    }
  }

  /** A failed load leaves the manager not loaded, with nothing under any
      category. */
  lemma FailedLoadIsNotLoaded(csvExists: bool, read: string -> Option<seq<string>>)
    requires !csvExists || forall i :: 0 <= i < |Encodings| ==> read(Encodings[i]).None?
    ensures var m := Manager(Some(LoadKeywords(csvExists, read)));
            && !IsLoaded(m) && m.cache.value.byCategory == map[]
  {
  }

  /** The process-wide instance slot of `__new__` and the next fresh
      object identity. */
  datatype Registry = Registry(instance: Option<nat>, nextId: nat)

  /** `KeywordManager()`: `__new__` creates the instance only the first
      time and otherwise returns it; `__init__` loads when nothing has been
      loaded yet. Gives the registry, the instance's identity and the
      manager's state. */
  function Construct(reg: Registry, m: Manager, csvExists: bool, read: string -> Option<seq<string>>): (r: (Registry, nat, Manager))
    ensures reg.instance.Some? ==> r.0 == reg && r.1 == reg.instance.value
    ensures r.0.instance == Some(r.1)
    ensures m.cache.Some? ==> r.2 == m
    ensures m.cache.None? ==> r.2 == Manager(Some(LoadKeywords(csvExists, read)))
  {
    var (reg1, id) :=
      match reg.instance
      case Some(i) => (reg, i)
      case None => (Registry(Some(reg.nextId), reg.nextId + 1), reg.nextId);
    var m1 := if m.cache.None? then Manager(Some(LoadKeywords(csvExists, read))) else m;
    (reg1, id, m1)
  }

  /** Constructing twice gives the same instance, and the second
      construction neither loads again nor changes anything. */
  lemma ConstructTwice(reg: Registry, m: Manager, csvExists: bool, read: string -> Option<seq<string>>,
                       csvExists2: bool, read2: string -> Option<seq<string>>)
    ensures var (reg1, id1, m1) := Construct(reg, m, csvExists, read);
            Construct(reg1, m1, csvExists2, read2) == (reg1, id1, m1)
  {
  }

  /** Python's `ks[:n]`: a negative `n` counts from the end. */
  function SlicePrefix(ks: seq<string>, n: int): (r: seq<string>)
    ensures |r| <= |ks| && r == ks[..|r|]
    ensures n >= 0 ==> |r| == if n < |ks| then n else |ks|
    ensures n < 0 ==> |r| == if |ks| + n > 0 then |ks| + n else 0
  {
    if n >= 0 then (if n < |ks| then ks[..n] else ks)
    else if |ks| + n > 0 then ks[..|ks| + n] else []
  }

  /** A Python `limit` argument: `None`, or an `int`; it is falsy when it is
      `None` or zero. */
  predicate Falsy(limit: Option<int>) {
    limit.None? || limit.value == 0
  }

  /** `get_keywords(category, limit)`: an absent or empty cache is
      reloaded first; the category's list, or the whole cache for an
      unknown category, cut to `limit` when it is truthy. Gives the
      manager's new state and the list. */
  function GetKeywords(m: Manager, category: string, limit: Option<int>,
                       csvExists: bool, read: string -> Option<seq<string>>): (r: (Manager, seq<string>))
    ensures IsLoaded(m) ==> r.0 == m
    ensures !IsLoaded(m) ==> r.0 == Manager(Some(LoadKeywords(csvExists, read)))
    ensures r.0.cache.Some?
  {
    var m1 := if IsLoaded(m) then m else Manager(Some(LoadKeywords(csvExists, read)));
    var c := m1.cache.value;
    var ks := if category in c.byCategory then c.byCategory[category] else c.keywords;
    (m1, if Falsy(limit) then ks else SlicePrefix(ks, limit.value))
  }

  /** On a coherent cache the answer is always a prefix of the keywords,
      for any category: all of them when `limit` is falsy, and
      `min(limit, n)` of them for a positive `limit`. */
  lemma GetKeywordsPrefix(m: Manager, category: string, limit: Option<int>,
                          csvExists: bool, read: string -> Option<seq<string>>)
    requires m.cache.Some? ==> Coherent(m.cache.value)
    ensures var (m1, ks) := GetKeywords(m, category, limit, csvExists, read);
            var all := m1.cache.value.keywords;
            && ks == all[..|ks|]
            && (Falsy(limit) ==> ks == all)
            && (limit.Some? && limit.value > 0 ==> |ks| == if limit.value < |all| then limit.value else |all|)
  {
    LoadCoherent(csvExists, read);
  }

  /** An empty cache is read again on the next lookup, so a file that has
      appeared since is picked up. */
  lemma EmptyCacheReloads(m: Manager, category: string, limit: Option<int>,
                          read: string -> Option<seq<string>>)
    requires m.cache == Some(Cache([], map[]))
    requires FirstRead(read, Encodings).Some? && FirstRead(read, Encodings).value != []
    ensures IsLoaded(GetKeywords(m, category, limit, true, read).0)
  {
  }

  /** `get_keywords_string(category, limit)`: the keywords joined by
      `", "`. */
  function GetKeywordsString(m: Manager, category: string, limit: Option<int>,
                             csvExists: bool, read: string -> Option<seq<string>>): (r: (Manager, string))
    ensures r.0 == GetKeywords(m, category, limit, csvExists, read).0
  {
    var (m1, ks) := GetKeywords(m, category, limit, csvExists, read);
    (m1, Join(ks, ", "))
  }

  /** Joining a prefix gives a prefix of the joined whole. */
  lemma {:induction false} JoinPrefix(xs: seq<string>, ys: seq<string>, sep: string)
    requires xs != [] && |xs| <= |ys| && xs == ys[..|xs|]
    ensures Join(xs, sep) <= Join(ys, sep)
    decreases |xs|
  {
    if |xs| == 1 {
      assert xs[0] == ys[0];
    } else {
      assert xs[1..] == ys[1..][..|xs| - 1];
      JoinPrefix(xs[1..], ys[1..], sep);
    }
  }

  /** A smaller positive limit gives a prefix of the string a larger one
      gives. */
  lemma StringGrowsWithLimit(m: Manager, category: string, a: int, b: int,
                             csvExists: bool, read: string -> Option<seq<string>>)
    requires 0 < a <= b
    requires m.cache.Some? ==> Coherent(m.cache.value)
    ensures var short := GetKeywordsString(m, category, Some(a), csvExists, read).1;
            var long := GetKeywordsString(m, category, Some(b), csvExists, read).1;
            short <= long
  {
    var (m1, xs) := GetKeywords(m, category, Some(a), csvExists, read);
    var (m2, ys) := GetKeywords(m, category, Some(b), csvExists, read);
    GetKeywordsPrefix(m, category, Some(a), csvExists, read);
    GetKeywordsPrefix(m, category, Some(b), csvExists, read);
    if xs != [] {
      JoinPrefix(xs, ys, ", ");
    }
  }
}
