/**
 * The navigation logic of `components/DocsSidebar.tsx`: the folder label
 * (`formatFolderName`), the grouping of articles by folder that the
 * component builds with `reduce` and lists with `Object.entries`, and the
 * test that marks the link of the page being viewed as active.
 */
module DocsSidebar {
  import opened Wrappers
  import opened JsRuntime

  datatype Article = Article(slug: string, title: string, folder: string)

  const RootFolder := "root"
  const RootLabel := "Documentation"

  // ---------------------------------------------------------------------------
  // formatFolderName
  // ---------------------------------------------------------------------------

  /**
   * `word.charAt(0).toUpperCase() + word.slice(1)`, where `upper` is the
   * engine's `toUpperCase` on a one-code-unit string. For an astral first
   * character `charAt(0)` is a lone high surrogate, which `toUpperCase`
   * keeps, so the word comes back unchanged.
   */
  function Capitalize(word: string, upper: char -> string): string {
    if word == [] then []
    else if IsAstral(word[0]) then word
    else upper(word[0]) + word[1..]
  }

  /** `words.map(capitalize)`. */
  function CapitalizeAll(words: seq<string>, upper: char -> string): seq<string> {
    seq(|words|, i requires 0 <= i < |words| => Capitalize(words[i], upper))
  }

  /** The label of a folder in the sidebar. */
  function FormatFolderName(folder: string, upper: char -> string): string {
    if folder == RootFolder then RootLabel
    else Join(CapitalizeAll(Split(folder, '-'), upper), ' ')
  }

  /**
   * `toUpperCase` on a one-character ASCII string: lower-case letters map to
   * upper-case ones, every other ASCII character is kept.
   */
  function AsciiUpperCase(c: char): (r: string)
    requires c as int < 128
    ensures |r| == 1
    ensures 'a' <= c <= 'z' ==> r[0] as int == c as int - 32
    ensures !('a' <= c <= 'z') ==> r == [c]
  {
    if 'a' <= c <= 'z' then [(c as int - 32) as char] else [c]
  }

  /** The ASCII case mapping, extended to all characters by the identity. */
  function AsciiCase(c: char): string {
    if c as int < 128 then AsciiUpperCase(c) else [c]
  }

  /**
   * A character-by-character reading of the label: a hyphen becomes a space,
   * the first character of each hyphen-separated word goes through `upper`
   * (unless it is astral), and every other character is kept. `atStart` says
   * whether `s` begins a word.
   */
  function TitleCase(s: string, upper: char -> string, atStart: bool): string {
    if s == [] then []
    else if s[0] == '-' then [' '] + TitleCase(s[1..], upper, true)
    else HeadCase(s[0], upper, atStart) + TitleCase(s[1..], upper, false)
  }

  /** Whether position `i` of `s` begins a hyphen-separated word. */
  predicate StartsWord(s: string, atStart: bool, i: int)
    requires 0 <= i < |s|
  {
    if i == 0 then atStart else s[i - 1] == '-'
  }

  /** The words, capitalised, except the first one when `first` is false. */
  function CapitalizeWords(words: seq<string>, upper: char -> string, first: bool): seq<string> {
    seq(|words|, i requires 0 <= i < |words| =>
      if i == 0 && !first then words[i] else Capitalize(words[i], upper))
  }

  /** What `TitleCase` makes of the first character of a word. */
  function HeadCase(c: char, upper: char -> string, atStart: bool): string {
    if atStart && !IsAstral(c) then upper(c) else [c]
  }

  lemma CapitalizeAfterEmptyWord(rest: seq<string>, upper: char -> string, first: bool)
    ensures CapitalizeWords([[]] + rest, upper, first) == [[]] + CapitalizeWords(rest, upper, true)
  {
  }

  lemma CapitalizeExtendedFirstWord(c: char, rest: seq<string>, upper: char -> string, first: bool)
    requires |rest| >= 1
    ensures CapitalizeWords([[c] + rest[0]] + rest[1..], upper, first) ==
            [HeadCase(c, upper, first) + rest[0]] + CapitalizeWords(rest, upper, false)[1..]
  {
    var ws := [[c] + rest[0]] + rest[1..];
    var lhs := CapitalizeWords(ws, upper, first);
    var rhs := [HeadCase(c, upper, first) + rest[0]] + CapitalizeWords(rest, upper, false)[1..];
    assert lhs[0] == rhs[0] by {
      CapitalizeHead(c, rest[0], upper, first);
    }
    assert forall i :: 1 <= i < |lhs| ==> lhs[i] == rhs[i] by {
      forall i | 1 <= i < |lhs| ensures lhs[i] == rhs[i] {
        assert ws[i] == rest[i];
      }
    }
    assert lhs == rhs;
  }

  /** The first word, extended by `c` in front, as `CapitalizeWords` treats it. */
  lemma CapitalizeHead(c: char, w: string, upper: char -> string, first: bool)
    ensures (if !first then [c] + w else Capitalize([c] + w, upper)) == HeadCase(c, upper, first) + w
  {
    assert ([c] + w)[0] == c && ([c] + w)[1..] == w;
  }

  lemma {:induction false} CapitalizedJoinIsTitleCase(s: string, upper: char -> string, atStart: bool)
    ensures Join(CapitalizeWords(Split(s, '-'), upper, atStart), ' ') == TitleCase(s, upper, atStart)
  {
    if s == [] {
      assert CapitalizeWords([[]], upper, atStart) == [[]];
    } else {
      CapitalizedJoinIsTitleCase(s[1..], upper, s[0] == '-');
      var rest := Split(s[1..], '-');
      var cwRest := CapitalizeWords(rest, upper, s[0] == '-');
      if s[0] == '-' {
        assert Split(s, '-') == [[]] + rest;
        CapitalizeAfterEmptyWord(rest, upper, atStart);
        assert ([[]] + cwRest)[1..] == cwRest;
        assert Join([[]] + cwRest, ' ') == [' '] + Join(cwRest, ' ');
        assert TitleCase(s, upper, atStart) == [' '] + TitleCase(s[1..], upper, true);
      } else {
        assert Split(s, '-') == [[s[0]] + rest[0]] + rest[1..];
        CapitalizeExtendedFirstWord(s[0], rest, upper, atStart);
        assert cwRest == [rest[0]] + cwRest[1..];
        JoinPrefixFirst(HeadCase(s[0], upper, atStart), rest[0], cwRest[1..], ' ');
        assert TitleCase(s, upper, atStart) == HeadCase(s[0], upper, atStart) + TitleCase(s[1..], upper, false);
      }
    }
  }

  /** The root folder is labelled "Documentation". */
  lemma RootIsDocumentation(upper: char -> string)
    ensures FormatFolderName(RootFolder, upper) == RootLabel
  {
  }

  /**
   * Any other folder is labelled by its hyphen-separated words, each with
   * its first character upper-cased and the rest unchanged, joined by
   * single spaces, which is the character-by-character reading `TitleCase`.
   */
  lemma FormatFolderNameIsTitleCase(folder: string, upper: char -> string)
    requires folder != RootFolder
    ensures FormatFolderName(folder, upper) == TitleCase(folder, upper, true)
  {
    var words := Split(folder, '-');
    assert CapitalizeAll(words, upper) == CapitalizeWords(words, upper, true);
    CapitalizedJoinIsTitleCase(folder, upper, true);
  }

  /**
   * When the case mapping keeps each character of `s` one code unit long
   * (as it does for ASCII), the title-cased text is as long as `s` and
   * differs from it only at hyphens (now spaces) and word starts.
   */
  lemma {:induction false} TitleCaseAt(s: string, upper: char -> string, atStart: bool)
    requires forall i :: 0 <= i < |s| ==> |upper(s[i])| == 1
    ensures |TitleCase(s, upper, atStart)| == |s|
    ensures forall i :: 0 <= i < |s| ==>
      TitleCase(s, upper, atStart)[i] ==
        if s[i] == '-' then ' '
        else if StartsWord(s, atStart, i) && !IsAstral(s[i]) then upper(s[i])[0]
        else s[i]
  {
    if s != [] {
      assert forall i :: 1 <= i < |s| ==> s[1..][i - 1] == s[i];
      TitleCaseAt(s[1..], upper, s[0] == '-');
      forall i | 1 <= i < |s|
        ensures StartsWord(s[1..], s[0] == '-', i - 1) == StartsWord(s, atStart, i)
      {
      }
    }
  }

  /** For a non-root ASCII folder, the label is exactly as long as the folder name. */
  lemma AsciiLabelLength(folder: string)
    requires folder != RootFolder
    requires forall i :: 0 <= i < |folder| ==> folder[i] as int < 128
    ensures |FormatFolderName(folder, AsciiCase)| == |folder|
  {
    FormatFolderNameIsTitleCase(folder, AsciiCase);
    TitleCaseAt(folder, AsciiCase, true);
  }

  /** A two-word folder name becomes its two capitalized words separated by a space. */
  lemma FormatTwoWords(v: string, w: string, upper: char -> string)
    requires '-' !in v && '-' !in w
    ensures FormatFolderName(v + "-" + w, upper) == Capitalize(v, upper) + " " + Capitalize(w, upper)
  {
    var folder := v + "-" + w;
    assert folder[|v|] == '-';
    assert folder != RootFolder;
    JoinPair(v, w, '-');
    SplitJoin([v, w], '-');
    assert CapitalizeAll([v, w], upper) == [Capitalize(v, upper), Capitalize(w, upper)];
    JoinPair(Capitalize(v, upper), Capitalize(w, upper), ' ');
  }

  /** "getting-started" is labelled "Getting Started". */
  lemma GettingStartedLabel()
    ensures FormatFolderName("getting" + "-" + "started", AsciiCase) == "Getting" + " " + "Started"
  {
    FormatTwoWords("getting", "started", AsciiCase);
    assert Capitalize("getting", AsciiCase) == "Getting" by {
      assert AsciiCase('g') == "G";
      assert "G" + "getting"[1..] == "Getting";
    }
    assert Capitalize("started", AsciiCase) == "Started" by {
      assert AsciiCase('s') == "S";
      assert "S" + "started"[1..] == "Started";
    }
  }

  // ---------------------------------------------------------------------------
  // Grouping articles by folder
  // ---------------------------------------------------------------------------

  /** `article.folder || 'root'`: an empty folder counts as the root folder. */
  function FolderKey(a: Article): (k: string)
    ensures k != ""
    ensures a.folder != "" ==> k == a.folder
  {
    if a.folder == "" then RootFolder else a.folder
  }

  /** Some article of `articles` belongs to folder `key`. */
  predicate Occurs(articles: seq<Article>, key: string) {
    exists j :: 0 <= j < |articles| && FolderKey(articles[j]) == key
  }

  predicate Distinct(keys: seq<string>) {
    forall i, j :: 0 <= i < j < |keys| ==> keys[i] != keys[j]
  }

  lemma OccursSnoc(init: seq<Article>, a: Article)
    ensures forall key :: Occurs(init + [a], key) <==> Occurs(init, key) || FolderKey(a) == key
  {
    forall key | Occurs(init + [a], key) && FolderKey(a) != key
      ensures Occurs(init, key)
    {
      var j :| 0 <= j < |init + [a]| && FolderKey((init + [a])[j]) == key;
      assert j < |init| && (init + [a])[j] == init[j];
    }
    forall key | Occurs(init, key)
      ensures Occurs(init + [a], key)
    {
      var j :| 0 <= j < |init| && FolderKey(init[j]) == key;
      assert (init + [a])[j] == init[j];
    }
    assert (init + [a])[|init|] == a;
  }

  /**
   * The keys of the grouping record in insertion order: each folder key
   * once, in the order of its first article.
   */
  function FolderOrder(articles: seq<Article>): seq<string> {
    if articles == [] then []
    else
      var keys := FolderOrder(articles[..|articles| - 1]);
      var k := FolderKey(articles[|articles| - 1]);
      if k in keys then keys else keys + [k]
  }

  /** The record's keys are distinct, and they are exactly the folder keys of the input. */
  lemma {:induction false} FolderOrderKeys(articles: seq<Article>)
    ensures Distinct(FolderOrder(articles))
    ensures forall k :: k in FolderOrder(articles) <==> Occurs(articles, k)
  {
    if articles != [] {
      var init := articles[..|articles| - 1];
      var last := articles[|articles| - 1];
      assert articles == init + [last];
      FolderOrderKeys(init);
      OccursSnoc(init, last);
    }
  }

  /** The articles of folder `key`, in input order. */
  function Bucket(articles: seq<Article>, key: string): seq<Article> {
    if articles == [] then []
    else
      var last := articles[|articles| - 1];
      Bucket(articles[..|articles| - 1], key) + (if FolderKey(last) == key then [last] else [])
  }

  /**
   * A bucket holds only input articles of its key, and holds every one of
   * them; so the bucket of a key that occurs nowhere is empty.
   */
  lemma {:induction false} BucketMembers(articles: seq<Article>, key: string)
    ensures forall a :: a in Bucket(articles, key) ==> a in articles && FolderKey(a) == key
    ensures forall j :: 0 <= j < |articles| && FolderKey(articles[j]) == key ==>
              articles[j] in Bucket(articles, key)
    ensures !Occurs(articles, key) ==> Bucket(articles, key) == []
  {
    if articles != [] {
      var init := articles[..|articles| - 1];
      BucketMembers(init, key);
      assert forall j :: 0 <= j < |init| ==> articles[j] == init[j];
      assert articles == init + [articles[|articles| - 1]];
    }
  }

  /** The pairs `Object.entries` lists for a record with keys `keys`. */
  function Entries(articles: seq<Article>, keys: seq<string>): seq<(string, seq<Article>)> {
    seq(|keys|, i requires 0 <= i < |keys| => (keys[i], Bucket(articles, keys[i])))
  }

  /** The specification of the grouping: the folder entries in insertion order. */
  function Grouped(articles: seq<Article>): seq<(string, seq<Article>)> {
    Entries(articles, FolderOrder(articles))
  }

  /**
   * The `reduce` of lines 32-42 followed by `Object.entries`, on a record
   * without inherited properties (as `Object.create(null)` or a `Map` gives):
   * a loop that creates a record entry for each new folder key and appends
   * each article to its folder's bucket.
   */
  method GroupByFolder(articles: seq<Article>) returns (entries: seq<(string, seq<Article>)>)
    ensures entries == Grouped(articles)
  {
    var acc: map<string, seq<Article>> := map[];
    var keys: seq<string> := [];
    var n := 0;
    while n < |articles|
      invariant 0 <= n <= |articles|
      invariant RecordHolds(articles[..n], keys, acc)
    {
      ghost var acc0, keys0 := acc, keys;
      var article := articles[n];
      var folder := if article.folder == "" then RootFolder else article.folder;
      if folder !in acc {
        acc := acc[folder := []];
        keys := keys + [folder];
      }
      acc := acc[folder := acc[folder] + [article]];
      assert articles[..n + 1] == articles[..n] + [article];
      RecordStep(articles[..n], article, keys0, acc0, keys, acc);
      n := n + 1;
    }
    RecordEntries(articles[..n], keys, acc);
    entries := ObjectEntries(keys, acc);
    assert articles[..n] == articles;
  }

  /**
   * The property names every object literal inherits from `Object.prototype`
   * (ECMAScript section 20.1.3 and Annex B.2.2). Each of them reads as a
   * function, or for `__proto__` as the prototype object, so `acc[folder]` is
   * truthy before the `reduce` has stored anything under that name.
   */
  const InheritedProperties: set<string> := {
    "constructor", "hasOwnProperty", "isPrototypeOf", "propertyIsEnumerable",
    "toLocaleString", "toString", "valueOf", "__proto__",
    "__defineGetter__", "__defineSetter__", "__lookupGetter__", "__lookupSetter__"
  }

  /** Some article's folder key names an inherited property of the record. */
  predicate ReduceThrows(articles: seq<Article>) {
    exists j :: 0 <= j < |articles| && FolderKey(articles[j]) in InheritedProperties
  }

  /**
   * The `reduce` of lines 32-42 as written, on a record created by `{}`. For
   * an inherited name `!acc[folder]` is false, so no bucket is created, and
   * `acc[folder].push(article)` throws a `TypeError` (`None` here). Otherwise
   * the grouping is the intended one.
   */
  method GroupByFolderAsWritten(articles: seq<Article>)
    returns (entries: Option<seq<(string, seq<Article>)>>)
    ensures entries.None? <==> ReduceThrows(articles)
    ensures entries.Some? ==> entries.value == Grouped(articles)
  {
    var acc: map<string, seq<Article>> := map[];
    var keys: seq<string> := [];
    var n := 0;
    while n < |articles|
      invariant 0 <= n <= |articles|
      invariant RecordHolds(articles[..n], keys, acc)
      invariant forall k :: k in acc ==> k !in InheritedProperties
      invariant forall j :: 0 <= j < n ==> FolderKey(articles[j]) !in InheritedProperties
    {
      ghost var acc0, keys0 := acc, keys;
      var article := articles[n];
      var folder := if article.folder == "" then RootFolder else article.folder;
      if folder !in acc && folder !in InheritedProperties {
        acc := acc[folder := []];
        keys := keys + [folder];
      }
      if folder !in acc {
        // `acc[folder]` is the inherited member, which has no `push`: a `TypeError`
        assert FolderKey(articles[n]) in InheritedProperties;
        return None;
      }
      acc := acc[folder := acc[folder] + [article]];
      assert articles[..n + 1] == articles[..n] + [article];
      OwnRecordStep(articles[..n], article, keys0, acc0, keys, acc);
      n := n + 1;
    }
    RecordEntries(articles[..n], keys, acc);
    assert articles[..n] == articles;
    entries := Some(ObjectEntries(keys, acc));
  }

  /** A step of the `reduce` on a key that is not inherited keeps the record free of inherited keys. */
  lemma OwnRecordStep(
    done: seq<Article>, a: Article,
    keys: seq<string>, acc: map<string, seq<Article>>,
    keys': seq<string>, acc': map<string, seq<Article>>)
    requires RecordHolds(done, keys, acc)
    requires forall k :: k in acc ==> k !in InheritedProperties
    requires FolderKey(a) !in InheritedProperties
    requires keys' == if FolderKey(a) in acc then keys else keys + [FolderKey(a)]
    requires acc'.Keys == acc.Keys + {FolderKey(a)}
    requires acc'[FolderKey(a)] == (if FolderKey(a) in acc then acc[FolderKey(a)] else []) + [a]
    requires forall x :: x in acc && x != FolderKey(a) ==> acc'[x] == acc[x]
    ensures RecordHolds(done + [a], keys', acc')
    ensures forall k :: k in acc' ==> k !in InheritedProperties
  {
    RecordStep(done, a, keys, acc, keys', acc');
  }

  /**
   * One article in a folder named `constructor`: the source throws, while the
   * intended grouping has that folder with the article in it.
   */
  lemma InheritedFolderThrows(a: Article)
    requires a.folder == "constructor"
    ensures ReduceThrows([a])
    ensures Grouped([a]) == [("constructor", [a])]
  {
    assert FolderKey([a][0]) in InheritedProperties;
    assert [a][..0] == [];
    assert FolderOrder([a]) == ["constructor"];
    assert Bucket([a], "constructor") == [a];
  }

  /** `Object.entries` of a record whose keys, in insertion order, are `keys`. */
  function ObjectEntries(keys: seq<string>, acc: map<string, seq<Article>>): seq<(string, seq<Article>)>
    requires forall i :: 0 <= i < |keys| ==> keys[i] in acc
  {
    seq(|keys|, i requires 0 <= i < |keys| => (keys[i], acc[keys[i]]))
  }

  /**
   * The state of the `reduce` after the articles `done`: `keys` is the
   * record's insertion order and `acc` maps each key to its bucket.
   */
  ghost predicate RecordHolds(done: seq<Article>, keys: seq<string>, acc: map<string, seq<Article>>) {
    && keys == FolderOrder(done)
    && (forall k :: k in acc <==> k in keys)
    && (forall k :: k in acc ==> acc[k] == Bucket(done, k))
  }

  /** One step of the `reduce` keeps the record in step with the specification. */
  lemma RecordStep(
    done: seq<Article>, a: Article,
    keys: seq<string>, acc: map<string, seq<Article>>,
    keys': seq<string>, acc': map<string, seq<Article>>)
    requires RecordHolds(done, keys, acc)
    requires keys' == if FolderKey(a) in acc then keys else keys + [FolderKey(a)]
    requires acc'.Keys == acc.Keys + {FolderKey(a)}
    requires acc'[FolderKey(a)] == (if FolderKey(a) in acc then acc[FolderKey(a)] else []) + [a]
    requires forall x :: x in acc && x != FolderKey(a) ==> acc'[x] == acc[x]
    ensures RecordHolds(done + [a], keys', acc')
  {
    assert (done + [a])[..|done|] == done;
    assert keys' == FolderOrder(done + [a]);
    BucketsStep(done, a, acc, acc');
  }

  lemma BucketsStep(done: seq<Article>, a: Article, acc: map<string, seq<Article>>, acc': map<string, seq<Article>>)
    requires forall k :: k in acc ==> acc[k] == Bucket(done, k)
    requires forall k :: k in acc <==> k in FolderOrder(done)
    requires acc'.Keys == acc.Keys + {FolderKey(a)}
    requires acc'[FolderKey(a)] == (if FolderKey(a) in acc then acc[FolderKey(a)] else []) + [a]
    requires forall x :: x in acc && x != FolderKey(a) ==> acc'[x] == acc[x]
    ensures forall k :: k in acc' ==> acc'[k] == Bucket(done + [a], k)
  {
    assert (done + [a])[..|done|] == done;
    var k := FolderKey(a);
    if k !in acc {
      FolderOrderKeys(done);
      BucketMembers(done, k);
    }
  }

  /** At the end, listing the record's entries in key order gives the specification. */
  lemma RecordEntries(articles: seq<Article>, keys: seq<string>, acc: map<string, seq<Article>>)
    requires RecordHolds(articles, keys, acc)
    ensures forall i :: 0 <= i < |keys| ==> keys[i] in acc
    ensures ObjectEntries(keys, acc) == Grouped(articles)
  {
  }

  /** The concatenation of the groups' article lists. */
  function Flatten(groups: seq<(string, seq<Article>)>): seq<Article> {
    if groups == [] then []
    else Flatten(groups[..|groups| - 1]) + groups[|groups| - 1].1
  }

  lemma {:induction false} FlattenAddArticle(s: seq<Article>, a: Article, keys: seq<string>)
    requires Distinct(keys)
    ensures multiset(Flatten(Entries(s + [a], keys))) ==
            multiset(Flatten(Entries(s, keys))) +
            (if FolderKey(a) in keys then multiset{a} else multiset{})
  {
    if keys != [] {
      var init := keys[..|keys| - 1];
      var x := keys[|keys| - 1];
      var k := FolderKey(a);
      assert keys == init + [x];
      assert Distinct(init);
      FlattenAddArticle(s, a, init);
      FlattenEntriesSnoc(s + [a], init, x);
      FlattenEntriesSnoc(s, init, x);
      BucketSnoc(s, a, x);
      assert (k in keys) == (k in init || k == x);
      assert k == x ==> k !in init;
      AddToLastGroup(Flatten(Entries(s, init)), Flatten(Entries(s + [a], init)), Bucket(s, x),
        a, k in init, k == x);
    }
  }

  /** The multiset bookkeeping of one `FlattenAddArticle` step. */
  lemma AddToLastGroup(before: seq<Article>, after: seq<Article>, bucket: seq<Article>,
                       a: Article, inInit: bool, isLast: bool)
    requires !(inInit && isLast)
    requires multiset(after) == multiset(before) + (if inInit then multiset{a} else multiset{})
    ensures multiset(after + (bucket + if isLast then [a] else [])) ==
            multiset(before + bucket) + (if inInit || isLast then multiset{a} else multiset{})
  {
  }

  lemma FlattenEntriesSnoc(s: seq<Article>, keys: seq<string>, x: string)
    ensures Flatten(Entries(s, keys + [x])) == Flatten(Entries(s, keys)) + Bucket(s, x)
  {
    assert Entries(s, keys + [x])[..|keys|] == Entries(s, keys);
  }

  lemma BucketSnoc(s: seq<Article>, a: Article, x: string)
    ensures Bucket(s + [a], x) == Bucket(s, x) + (if FolderKey(a) == x then [a] else [])
  {
    assert (s + [a])[..|s|] == s;
  }

  /**
   * No article is dropped or duplicated: the groups together hold exactly
   * the input articles (as a multiset), so their sizes add up to the input length.
   */
  lemma {:induction false} GroupedKeepsEveryArticle(s: seq<Article>)
    ensures multiset(Flatten(Grouped(s))) == multiset(s)
    ensures |Flatten(Grouped(s))| == |s|
  {
    if s != [] {
      var init := s[..|s| - 1];
      var a := s[|s| - 1];
      assert s == init + [a];
      GroupedKeepsEveryArticle(init);
      var keys := FolderOrder(init);
      FolderOrderKeys(init);
      FlattenAddArticle(init, a, keys);
      var k := FolderKey(a);
      if k !in keys {
        FlattenEntriesSnoc(s, keys, k);
        BucketMembers(init, k);
        assert Bucket(s, k) == [a];
      }
    }
    assert |multiset(Flatten(Grouped(s)))| == |Flatten(Grouped(s))|;
  }

  /**
   * Every article lands in exactly one group: the groups have distinct
   * keys, the group of its folder key holds it, and a group holds only
   * articles of its own key.
   */
  lemma GroupedPartition(s: seq<Article>)
    ensures forall i, j :: 0 <= i < j < |Grouped(s)| ==> Grouped(s)[i].0 != Grouped(s)[j].0
    ensures forall j :: 0 <= j < |s| ==>
      exists i :: 0 <= i < |Grouped(s)| && Grouped(s)[i].0 == FolderKey(s[j]) && s[j] in Grouped(s)[i].1
    ensures forall i, a :: 0 <= i < |Grouped(s)| && a in Grouped(s)[i].1 ==>
      a in s && FolderKey(a) == Grouped(s)[i].0
  {
    var keys := FolderOrder(s);
    FolderOrderKeys(s);
    forall i | 0 <= i < |keys| {
      BucketMembers(s, keys[i]);
    }
    forall j | 0 <= j < |s|
      ensures exists i :: 0 <= i < |Grouped(s)| && Grouped(s)[i].0 == FolderKey(s[j]) && s[j] in Grouped(s)[i].1
    {
      assert Occurs(s, FolderKey(s[j]));
      var i :| 0 <= i < |keys| && keys[i] == FolderKey(s[j]);
      assert Grouped(s)[i] == (keys[i], Bucket(s, keys[i]));
    }
  }

  /** The input positions of the articles of folder `key`. */
  function Positions(s: seq<Article>, key: string): seq<int> {
    if s == [] then []
    else Positions(s[..|s| - 1], key) + (if FolderKey(s[|s| - 1]) == key then [|s| - 1] else [])
  }

  /**
   * Within a group, articles keep their input order: the bucket of `key`
   * is the input read at the strictly increasing positions of exactly the
   * articles whose folder key is `key`.
   */
  lemma {:induction false} BucketKeepsInputOrder(s: seq<Article>, key: string)
    ensures |Positions(s, key)| == |Bucket(s, key)|
    ensures forall p :: 0 <= p < |Positions(s, key)| ==>
      0 <= Positions(s, key)[p] < |s| && Bucket(s, key)[p] == s[Positions(s, key)[p]]
    ensures forall p, q :: 0 <= p < q < |Positions(s, key)| ==> Positions(s, key)[p] < Positions(s, key)[q]
    ensures forall j :: 0 <= j < |s| ==> (j in Positions(s, key) <==> FolderKey(s[j]) == key)
  {
    if s != [] {
      var init := s[..|s| - 1];
      BucketKeepsInputOrder(init, key);
      assert forall j :: 0 <= j < |init| ==> s[j] == init[j];
    }
  }

  /** The position of the first article of folder `key`. */
  function FirstIndex(s: seq<Article>, key: string): (p: nat)
    requires Occurs(s, key)
    ensures p < |s| && FolderKey(s[p]) == key
    ensures forall q :: 0 <= q < p ==> FolderKey(s[q]) != key
  {
    if FolderKey(s[0]) == key then 0
    else
      assert Occurs(s[1..], key) by {
        var j :| 0 <= j < |s| && FolderKey(s[j]) == key;
        assert s[1..][j - 1] == s[j];
      }
      1 + FirstIndex(s[1..], key)
  }

  lemma FirstIndexSnoc(s: seq<Article>, a: Article, key: string)
    requires Occurs(s, key)
    ensures Occurs(s + [a], key) && FirstIndex(s + [a], key) == FirstIndex(s, key)
  {
    OccursSnoc(s, a);
    var p0 := FirstIndex(s, key);
    assert (s + [a])[p0] == s[p0];
    var p := FirstIndex(s + [a], key);
    assert p <= p0;
    assert (s + [a])[p] == s[p];
  }

  /**
   * The groups come in first-appearance order of their folder keys: an
   * earlier group's first article precedes a later group's first article.
   */
  lemma {:induction false} GroupsInFirstAppearanceOrder(s: seq<Article>)
    ensures forall k :: k in FolderOrder(s) ==> Occurs(s, k)
    ensures forall i, j :: 0 <= i < j < |FolderOrder(s)| ==>
      FirstIndex(s, FolderOrder(s)[i]) < FirstIndex(s, FolderOrder(s)[j])
  {
    FolderOrderKeys(s);
    if s != [] {
      var init := s[..|s| - 1];
      var a := s[|s| - 1];
      assert s == init + [a];
      GroupsInFirstAppearanceOrder(init);
      FirstAppearanceStep(init, a);
    }
  }

  /** Appending an article keeps the first-appearance order of the keys. */
  lemma FirstAppearanceStep(init: seq<Article>, a: Article)
    requires forall k :: k in FolderOrder(init) ==> Occurs(init, k)
    requires forall i, j :: 0 <= i < j < |FolderOrder(init)| ==>
      FirstIndex(init, FolderOrder(init)[i]) < FirstIndex(init, FolderOrder(init)[j])
    ensures forall k :: k in FolderOrder(init + [a]) ==> Occurs(init + [a], k)
    ensures forall i, j :: 0 <= i < j < |FolderOrder(init + [a])| ==>
      FirstIndex(init + [a], FolderOrder(init + [a])[i]) < FirstIndex(init + [a], FolderOrder(init + [a])[j])
  {
    var s := init + [a];
    assert s[..|init|] == init;
    var keys := FolderOrder(init);
    var k := FolderKey(a);
    OccursSnoc(init, a);
    FolderOrderKeys(init);
    if k in keys {
      assert FolderOrder(s) == keys;
      forall i, j | 0 <= i < j < |keys|
        ensures FirstIndex(s, keys[i]) < FirstIndex(s, keys[j])
      {
        FirstIndexSnoc(init, a, keys[i]);
        FirstIndexSnoc(init, a, keys[j]);
      }
    } else {
      assert FolderOrder(s) == keys + [k];
      FirstIndexNewKey(init, a);
      forall i, j | 0 <= i < j < |keys| + 1
        ensures FirstIndex(s, (keys + [k])[i]) < FirstIndex(s, (keys + [k])[j])
      {
        FirstIndexSnoc(init, a, keys[i]);
        if j < |keys| {
          FirstIndexSnoc(init, a, keys[j]);
        }
      }
    }
  }

  lemma FirstIndexNewKey(s: seq<Article>, a: Article)
    requires !Occurs(s, FolderKey(a))
    ensures Occurs(s + [a], FolderKey(a)) && FirstIndex(s + [a], FolderKey(a)) == |s|
  {
    OccursSnoc(s, a);
    var p := FirstIndex(s + [a], FolderKey(a));
    if p < |s| {
      assert false;
    }
  }

  /** Folders ["root", "guides", "guides"] give two groups, "Documentation" then "Guides". */
  lemma TwoFolderScenario(a: Article, b: Article, c: Article)
    requires a.folder == "root" && b.folder == "guides" && c.folder == "guides"
    ensures Grouped([a, b, c]) == [("root", [a]), ("guides", [b, c])]
    ensures FormatFolderName(Grouped([a, b, c])[0].0, AsciiCase) == "Documentation"
    ensures FormatFolderName(Grouped([a, b, c])[1].0, AsciiCase) == "Guides"
  {
    var s := [a, b, c];
    assert s[..2] == [a, b] && [a, b][..1] == [a];
    ScenarioKeys(a, b, c);
    ScenarioBuckets(a, b, c);
    GuidesLabel();
  }

  lemma ScenarioKeys(a: Article, b: Article, c: Article)
    requires a.folder == "root" && b.folder == "guides" && c.folder == "guides"
    requires [a, b, c][..2] == [a, b] && [a, b][..1] == [a]
    ensures FolderOrder([a, b, c]) == ["root", "guides"]
  {
    assert FolderOrder([a]) == ["root"];
    assert FolderOrder([a, b]) == ["root", "guides"];
  }

  lemma ScenarioBuckets(a: Article, b: Article, c: Article)
    requires a.folder == "root" && b.folder == "guides" && c.folder == "guides"
    requires [a, b, c][..2] == [a, b] && [a, b][..1] == [a]
    ensures Bucket([a, b, c], "root") == [a]
    ensures Bucket([a, b, c], "guides") == [b, c]
  {
    assert Bucket([a], "root") == [a];
    assert Bucket([a], "guides") == [];
  }

  lemma GuidesLabel()
    ensures FormatFolderName("guides", AsciiCase) == "Guides"
  {
    SplitJoin(["guides"], '-');
    assert Capitalize("guides", AsciiCase) == "Guides";
  }

  // ---------------------------------------------------------------------------
  // Active link
  // ---------------------------------------------------------------------------

  /** `/content/${slug}`: the link of an article. */
  function Href(slug: string): string {
    "/content/" + slug
  }

  /** `currentPath === href || currentPath.startsWith(href + '/')`. */
  predicate IsActive(currentPath: string, slug: string) {
    currentPath == Href(slug) || Href(slug) + "/" <= currentPath
  }

  /**
   * `href` ends at a segment boundary of `path`: it is a prefix of `path`
   * that reaches the end of `path` or stops just before a `/`.
   */
  predicate AtOrBelow(path: string, href: string) {
    && |href| <= |path|
    && path[..|href|] == href
    && (|path| == |href| || path[|href|] == '/')
  }

  /**
   * A link is active exactly when the current path is its href, or lies
   * below it: the href must end at a segment boundary of the path.
   */
  lemma IsActiveAtSegmentBoundary(currentPath: string, slug: string)
    ensures IsActive(currentPath, slug) <==> AtOrBelow(currentPath, Href(slug))
  {
    var href := Href(slug);
    if |href| < |currentPath| && currentPath[..|href|] == href && currentPath[|href|] == '/' {
      assert currentPath[..|href| + 1] == href + "/";
    }
    if href + "/" <= currentPath {
      assert currentPath[..|href|] == (href + "/")[..|href|];
    }
  }

  /** Every page below an article's path keeps its link active. */
  lemma NestedPathIsActive(slug: string, rest: string)
    ensures IsActive(Href(slug) + "/" + rest, slug)
  {
    assert (Href(slug) + "/" + rest)[..|Href(slug) + "/"|] == Href(slug) + "/";
  }

  /** "/content/foobar" does not activate the link of slug "foo". */
  lemma SiblingPrefixNotActive()
    ensures !IsActive("/content/foobar", "foo")
  {
    IsActiveAtSegmentBoundary("/content/foobar", "foo");
    assert "/content/foobar"[|Href("foo")|] == 'b';
  }

  // ---------------------------------------------------------------------------
  // The rendered sidebar
  // ---------------------------------------------------------------------------

  /** One link of a folder section. */
  datatype Link = Link(href: string, title: string, active: bool)

  /** One `FolderSection`: its label and its links, shown while the section is open. */
  datatype Section = Section(heading: string, links: seq<Link>)

  /** The links of a folder's articles, in order, marked active against the current path. */
  function Links(articles: seq<Article>, currentPath: string): seq<Link> {
    seq(|articles|, i requires 0 <= i < |articles| =>
      Link(Href(articles[i].slug), articles[i].title, IsActive(currentPath, articles[i].slug)))
  }

  /**
   * There is one link per article, in order, to `/content/<slug>` with the
   * article's title, and it is highlighted exactly when the current path is
   * at or below that href.
   */
  lemma LinksHighlightCurrentPath(articles: seq<Article>, currentPath: string)
    ensures |Links(articles, currentPath)| == |articles|
    ensures forall i :: 0 <= i < |articles| ==>
      var link := Links(articles, currentPath)[i];
      && link.href == "/content/" + articles[i].slug
      && link.title == articles[i].title
      && (link.active <==> AtOrBelow(currentPath, link.href))
  {
    forall i | 0 <= i < |articles|
      ensures Links(articles, currentPath)[i].active <==> AtOrBelow(currentPath, Href(articles[i].slug))
    {
      IsActiveAtSegmentBoundary(currentPath, articles[i].slug);
    }
  }

  /**
   * `DocsSidebar`: one section per folder entry, in the order of the
   * grouping record, labelled by `formatFolderName`.
   */
  method RenderSidebar(articles: seq<Article>, currentPath: string, upper: char -> string)
    returns (sections: seq<Section>)
    ensures |sections| == |Grouped(articles)|
    ensures forall i :: 0 <= i < |sections| ==>
      sections[i] == Section(FormatFolderName(Grouped(articles)[i].0, upper),
                             Links(Grouped(articles)[i].1, currentPath))
  {
    var entries := GroupByFolder(articles);
    sections := seq(|entries|, i requires 0 <= i < |entries| =>
      Section(FormatFolderName(entries[i].0, upper), Links(entries[i].1, currentPath)));
  }
}
