/**
  The data provider's catalogue operations: reading and storing categories,
  domains and keywords inside the running transaction. A read walks a table
  or an index with a cursor and ends at the first not-found; a write is a
  sequence of primitive puts whose first failure escapes, leaving the
  earlier puts in the transaction for the caller to roll back.
 */
module Provider {
  import opened Wrappers
  import opened Sorted
  import opened Entities
  import opened DataModel
  import opened Store

  /** The effect of a write: the tables as the transaction holds them
      afterwards, and the exception that escaped, if one did. */
  datatype Outcome = Outcome(tables: Tables, thrown: Option<DbError>)

  /** Every record is filed under its own id (a ranking under its own date). */
  predicate Keyed(t: Tables) {
    && (forall id :: id in t.categories ==> t.categories[id].id == id)
    && (forall id :: id in t.domains ==> t.domains[id].id == id)
    && (forall id :: id in t.keywords ==> t.keywords[id].id == id)
    && (forall key :: key in t.rankings ==> t.rankings[key].date == key.date)
  }

  /** The records of a table in the order a cursor walks it. */
  function InKeyOrder<V(==,!new)>(m: map<Id, V>): (r: seq<V>)
    ensures |r| == |m|
    ensures forall v :: v in r <==> v in m.Values
  {
    var ids := AscendingIds(m.Keys);
    var r := seq(|ids|, i requires 0 <= i < |ids| => m[ids[i]]);
    assert forall v :: v in m.Values ==> v in r by {
      forall v | v in m.Values ensures v in r {
        var id :| id in m && m[id] == v;
        var i :| 0 <= i < |ids| && ids[i] == id;
        assert r[i] == v;
      }
    }
    r
  }

  /** The records under `keys` that exist, in order; missing keys are
      skipped. */
  function Present<K, V(==,!new)>(m: map<K, V>, keys: seq<K>): (r: seq<V>)
    ensures |r| <= |keys|
    ensures forall v :: v in r <==> exists i :: 0 <= i < |keys| && keys[i] in m && m[keys[i]] == v
    ensures (forall i :: 0 <= i < |keys| ==> keys[i] in m) ==> |r| == |keys|
  {
    if |keys| == 0 then []
    else
      var rest := Present(m, keys[1..]);
      assert forall i :: 1 <= i < |keys| ==> keys[i] == keys[1..][i - 1];
      if keys[0] in m then [m[keys[0]]] + rest else rest
  }

  /** The records under `keys` up to the first missing one: a cursor walk
      whose record lookup ends the walk on a not-found. */
  function Prefix<K, V>(m: map<K, V>, keys: seq<K>): (r: seq<V>)
    ensures |r| <= |keys|
    ensures forall i :: 0 <= i < |r| ==> keys[i] in m && r[i] == m[keys[i]]
    ensures |r| < |keys| ==> keys[|r|] !in m
  {
    if |keys| == 0 || keys[0] !in m then []
    else [m[keys[0]]] + Prefix(m, keys[1..])
  }

  /** When every key has a record, the walk reads all of them. */
  lemma PrefixComplete<K, V>(m: map<K, V>, keys: seq<K>)
    requires forall i :: 0 <= i < |keys| ==> keys[i] in m
    ensures |Prefix(m, keys)| == |keys|
  {
  }

  /** The synthetic first entry of the category list. */
  const AllDomainsCategory: Category := Category(NilId, "All Domains")

  /** `categories()`: the synthetic nil-id entry, then every stored category
      in key order; an empty table is not an error. */
  function Categories(t: Tables): (r: seq<Category>)
    ensures |r| == |t.categories| + 1
    ensures r[0] == AllDomainsCategory
    ensures forall c :: c in r[1..] <==> c in t.categories.Values
  {
    [AllDomainsCategory] + InKeyOrder(t.categories)
  }

  /** `domains()`: every stored domain, in key order. */
  function AllDomains(t: Tables): (r: seq<Domain>)
    ensures |r| == |t.domains|
    ensures forall d :: d in r <==> d in t.domains.Values
  {
    InKeyOrder(t.domains)
  }

  /** `domains(c)`: all domains for the nil category; otherwise the domains
      the category index links to `c`, skipping links whose record is gone. */
  function DomainsIn(t: Tables, c: Category): (r: seq<Domain>)
    ensures c.id == NilId ==> r == AllDomains(t)
    ensures c.id != NilId ==>
              forall d :: d in r <==>
                exists id :: id in Dups(t.categoryDomains, c.id) && id in t.domains && t.domains[id] == d
    ensures c.id != NilId ==> |r| <= |Dups(t.categoryDomains, c.id)|
  {
    if c.id == NilId then AllDomains(t)
    else
      var ids := AscendingIds(Dups(t.categoryDomains, c.id));
      var r := Present(t.domains, ids);
      assert forall d :: d in r ==> exists id :: id in Dups(t.categoryDomains, c.id) && id in t.domains && t.domains[id] == d;
      assert forall id :: id in Dups(t.categoryDomains, c.id) && id in t.domains ==> t.domains[id] in r by {
        forall id | id in Dups(t.categoryDomains, c.id) && id in t.domains ensures t.domains[id] in r {
          var i :| 0 <= i < |ids| && ids[i] == id;
        }
      }
      r
  }

  /** The ids of a domain's keywords, in index order. */
  function KeywordIds(t: Tables, d: Domain): (ids: seq<Id>)
    ensures forall id :: id in ids <==> id in Dups(t.domainKeywords, d.id)
    ensures StrictlySorted(ids)
  {
    AscendingIds(Dups(t.domainKeywords, d.id))
  }

  /** `keywords(d)`: the domain's keywords in index order, up to the first
      link whose keyword record is missing. */
  function Keywords(t: Tables, d: Domain): (r: seq<Keyword>)
    ensures |r| <= |Dups(t.domainKeywords, d.id)|
    ensures forall i :: 0 <= i < |r| ==>
              KeywordIds(t, d)[i] in t.keywords && r[i] == t.keywords[KeywordIds(t, d)[i]]
    ensures |r| < |KeywordIds(t, d)| ==> KeywordIds(t, d)[|r|] !in t.keywords
  {
    Prefix(t.keywords, KeywordIds(t, d))
  }

  /** `countKeywords(d)`: the number of links in the index, dangling ones
      included. */
  function CountKeywords(t: Tables, d: Domain): (n: nat)
    ensures n == |KeywordIds(t, d)|
    ensures n >= |Keywords(t, d)|
    ensures n == 0 <==> d.id !in t.domainKeywords || t.domainKeywords[d.id] == {}
  {
    |Dups(t.domainKeywords, d.id)|
  }

  /** Counting and listing agree when no link dangles. */
  lemma CountMatchesKeywords(t: Tables, d: Domain)
    requires forall id :: id in Dups(t.domainKeywords, d.id) ==> id in t.keywords
    ensures CountKeywords(t, d) == |Keywords(t, d)|
  {
    PrefixComplete(t.keywords, KeywordIds(t, d));
  }

  /** `storeCategory`. */
  function StoreCategory(mode: Mode, t: Tables, c: Category): (o: Outcome)
    ensures o.thrown.None? <==> mode.writable && !mode.mapFull
    ensures o.thrown.None? ==> o.tables == t.(categories := o.tables.categories)
    ensures o.thrown.None? ==> o.tables.categories.Keys == t.categories.Keys + {c.id}
    ensures o.thrown.None? ==> o.tables.categories[c.id] == c
    ensures o.thrown.Some? ==> o.tables == t
  {
    match PutRecord(mode, t.categories, c.id, c)
    case Ok(m) => Outcome(t.(categories := m), None)
    case Err(e) => Outcome(t, Some(e))
  }

  /** `storeDomain(d)`: rewrites the record only; no index changes. */
  function StoreDomain(mode: Mode, t: Tables, d: Domain): (o: Outcome)
    ensures o.thrown.None? <==> mode.writable && !mode.mapFull
    ensures o.thrown.None? ==> o.tables == t.(domains := o.tables.domains)
    ensures o.thrown.None? ==> o.tables.domains.Keys == t.domains.Keys + {d.id}
    ensures o.thrown.None? ==> o.tables.domains[d.id] == d
    ensures o.thrown.Some? ==> o.tables == t
  {
    match PutRecord(mode, t.domains, d.id, d)
    case Ok(m) => Outcome(t.(domains := m), None)
    case Err(e) => Outcome(t, Some(e))
  }

  /** `storeDomain(d, c)`: writes the record, then links it to `c` unless
      `c` is the nil category. */
  function StoreDomainIn(mode: Mode, t: Tables, d: Domain, c: Category): (o: Outcome)
    ensures o.thrown.None? <==> mode.writable && !mode.mapFull
    ensures o.thrown.None? ==> o.tables.domains == StoreDomain(mode, t, d).tables.domains
    ensures o.thrown.None? ==>
              (c.id == NilId ==> o.tables.categoryDomains == t.categoryDomains)
              && (c.id != NilId ==> Dups(o.tables.categoryDomains, c.id) == Dups(t.categoryDomains, c.id) + {d.id})
              && (forall x :: x != c.id ==> Dups(o.tables.categoryDomains, x) == Dups(t.categoryDomains, x))
    ensures o.tables.categories == t.categories && o.tables.keywords == t.keywords
    ensures o.tables.rankings == t.rankings && o.tables.domainKeywords == t.domainKeywords
    ensures o.tables.keywordRanking == t.keywordRanking
  {
    var o := StoreDomain(mode, t, d);
    if o.thrown.Some? || c.id == NilId then o
    else
      match PutDup(mode, o.tables.categoryDomains, c.id, d.id)
      case Ok(ix) => Outcome(o.tables.(categoryDomains := ix), None)
      case Err(e) => Outcome(o.tables, Some(e))
  }

  /** `storeKeyword(k)`: rewrites the record only; no index changes. */
  function StoreKeyword(mode: Mode, t: Tables, k: Keyword): (o: Outcome)
    ensures o.thrown.None? <==> mode.writable && !mode.mapFull
    ensures o.thrown.None? ==> o.tables == t.(keywords := o.tables.keywords)
    ensures o.thrown.None? ==> o.tables.keywords.Keys == t.keywords.Keys + {k.id}
    ensures o.thrown.None? ==> o.tables.keywords[k.id] == k
    ensures o.thrown.Some? ==> o.tables == t
  {
    match PutRecord(mode, t.keywords, k.id, k)
    case Ok(m) => Outcome(t.(keywords := m), None)
    case Err(e) => Outcome(t, Some(e))
  }

  /** `storeKeyword(k, d)`: writes the record, then links it to `d`. */
  function StoreKeywordIn(mode: Mode, t: Tables, k: Keyword, d: Domain): (o: Outcome)
    ensures o.thrown.None? <==> mode.writable && !mode.mapFull
    ensures o.thrown.None? ==> o.tables.keywords == StoreKeyword(mode, t, k).tables.keywords
    ensures o.thrown.None? ==> Dups(o.tables.domainKeywords, d.id) == Dups(t.domainKeywords, d.id) + {k.id}
    ensures forall x :: x != d.id ==> Dups(o.tables.domainKeywords, x) == Dups(t.domainKeywords, x)
    ensures o.tables.categories == t.categories && o.tables.domains == t.domains
    ensures o.tables.rankings == t.rankings && o.tables.categoryDomains == t.categoryDomains
    ensures o.tables.keywordRanking == t.keywordRanking
  {
    var o := StoreKeyword(mode, t, k);
    if o.thrown.Some? then o
    else
      match PutDup(mode, o.tables.domainKeywords, d.id, k.id)
      case Ok(ix) => Outcome(o.tables.(domainKeywords := ix), None)
      case Err(e) => Outcome(o.tables, Some(e))
  }

  // Bulk keywords: the text is read line by line, each line trimmed, and
  // every non-empty line stored as a new keyword of the domain.

  /** The characters `isspace` accepts in the default locale. */
  predicate IsSpace(c: char) {
    c == ' ' || c == '\t' || c == '\n' || c == '\U{000B}' || c == '\U{000C}' || c == '\r'
  }

  function TrimLeft(s: string): (r: string)
    ensures |r| <= |s| && r == s[|s| - |r|..]
    ensures |r| > 0 ==> !IsSpace(r[0])
    ensures forall i :: 0 <= i < |s| - |r| ==> IsSpace(s[i])
  {
    if |s| > 0 && IsSpace(s[0]) then
      var r := TrimLeft(s[1..]);
      assert s[1..][|s| - 1 - |r|..] == s[|s| - |r|..];
      assert forall i :: 1 <= i < |s| - |r| ==> s[i] == s[1..][i - 1];
      r
    else s
  }

  function TrimRight(s: string): (r: string)
    ensures |r| <= |s| && r == s[..|r|]
    ensures |r| > 0 ==> !IsSpace(r[|r| - 1])
    ensures forall i :: |r| <= i < |s| ==> IsSpace(s[i])
  {
    if |s| > 0 && IsSpace(s[|s| - 1]) then
      var r := TrimRight(s[..|s| - 1]);
      assert s[..|s| - 1][..|r|] == s[..|r|];
      assert forall i :: |r| <= i < |s| - 1 ==> s[i] == s[..|s| - 1][i];
      r
    else s
  }

  /** `boost::algorithm::trim`: drops leading and trailing white space. The
      result is a slice of `s` with only white space around it, and neither
      starts nor ends with white space itself. */
  function Trim(s: string): (r: string)
    ensures |r| <= |s|
    ensures exists i :: SpaceAround(s, r, i)
    ensures |r| > 0 ==> !IsSpace(r[0]) && !IsSpace(r[|r| - 1])
  {
    TrimAround(s);
    TrimRight(TrimLeft(s))
  }

  /** Trimming introduces no character. */
  lemma TrimChars(s: string)
    ensures forall c :: c in Trim(s) ==> c in s
  {
    var i :| SpaceAround(s, Trim(s), i);
    SliceChars(s, Trim(s), i);
  }

  /** What `TrimRight` keeps of what `TrimLeft` kept sits in `s` between
      white space. */
  lemma TrimAround(s: string)
    ensures SpaceAround(s, TrimRight(TrimLeft(s)), |s| - |TrimLeft(s)|)
  {
    var l := TrimLeft(s);
    SpaceAroundOfCut(s, l, TrimRight(l), |s| - |l|);
  }

  /** Cutting white space off the front of `s` and then off the back of
      what is left gives a slice of `s` between white space. */
  lemma SpaceAroundOfCut(s: string, l: string, r: string, i: nat)
    requires i <= |s| && l == s[i..]
    requires forall k :: 0 <= k < i ==> IsSpace(s[k])
    requires |r| <= |l| && r == l[..|r|]
    requires forall k :: |r| <= k < |l| ==> IsSpace(l[k])
    ensures SpaceAround(s, r, i)
  {
    assert r == s[i..i + |r|];
    forall k | i + |r| <= k < |s|
      ensures IsSpace(s[k])
    {
      assert s[k] == l[k - i];
    }
  }

  /** A slice holds only characters of the text it is cut from. */
  lemma SliceChars(s: string, r: string, i: nat)
    requires SpaceAround(s, r, i)
    ensures forall c :: c in r ==> c in s
  {
    forall c | c in r
      ensures c in s
    {
      var j :| 0 <= j < |r| && r[j] == c;
      assert s[i + j] == c;
    }
  }

  /** `r` is the slice of `s` at `i`, with only white space before and
      after it. */
  predicate SpaceAround(s: string, r: string, i: nat) {
    && i + |r| <= |s|
    && r == s[i..i + |r|]
    && (forall k :: 0 <= k < i ==> IsSpace(s[k]))
    && (forall k :: i + |r| <= k < |s| ==> IsSpace(s[k]))
  }

  /** The pieces of `s` between newlines. */
  function Split(s: string): (r: seq<string>)
    ensures |r| >= 1
    ensures forall i :: 0 <= i < |r| ==> '\n' !in r[i]
  {
    if |s| == 0 then [""]
    else
      var rest := Split(s[1..]);
      if s[0] == '\n' then [""] + rest
      else [[s[0]] + rest[0]] + rest[1..]
  }

  /** `std::getline` applied until the stream ends: a final newline does
      not start another line. */
  function Lines(s: string): (r: seq<string>)
    ensures forall i :: 0 <= i < |r| ==> '\n' !in r[i]
    ensures |r| == 0 <==> |s| == 0
    ensures JoinLines(r) == if |s| > 0 && s[|s| - 1] == '\n' then s[..|s| - 1] else s
  {
    JoinSplit(s);
    JoinSplit(if |s| > 0 then s[..|s| - 1] else s);
    if |s| == 0 then []
    else if s[|s| - 1] == '\n' then Split(s[..|s| - 1])
    else Split(s)
  }

  /** A value `store_bulk_keywords` can store: one non-empty line with no
      white space at either end. */
  predicate Clean(v: string) {
    |v| > 0 && '\n' !in v && !IsSpace(v[0]) && !IsSpace(v[|v| - 1])
  }

  /** The trimmed, non-empty lines of `text`, in order. */
  function BulkValues(text: string): (vs: seq<string>)
    ensures forall i :: 0 <= i < |vs| ==> Clean(vs[i])
  {
    TrimmedNonEmpty(Lines(text))
  }

  function TrimmedNonEmpty(lines: seq<string>): (vs: seq<string>)
    requires forall i :: 0 <= i < |lines| ==> '\n' !in lines[i]
    ensures |vs| <= |lines|
    ensures forall i :: 0 <= i < |vs| ==> Clean(vs[i])
  {
    if |lines| == 0 then []
    else
      var v := Trim(lines[0]);
      var rest := TrimmedNonEmpty(lines[1..]);
      if |v| > 0 then
        TrimChars(lines[0]);
        assert Clean(v);
        [v] + rest
      else rest
  }

  /** `uuid(i)` is not drawn again after position `i`, so the keyword
      stored at `i` is the one that stays. */
  predicate LastDraw(uuid: nat -> Id, i: nat, n: nat) {
    forall j :: i < j < n ==> uuid(j) != uuid(i)
  }

  /** Stores `vs[i]` as a new keyword with id `uuid(i)`, linked to `d`,
      for each `i` from `from` on; the first failure escapes. */
  function StoreEach(mode: Mode, t: Tables, d: Domain, vs: seq<string>, uuid: nat -> Id, from: nat): (o: Outcome)
    requires from <= |vs|
    ensures o.thrown.None? <==> from == |vs| || (mode.writable && !mode.mapFull)
    ensures o.tables.categories == t.categories && o.tables.domains == t.domains
    ensures o.tables.rankings == t.rankings && o.tables.categoryDomains == t.categoryDomains
    ensures o.tables.keywordRanking == t.keywordRanking
    ensures t.keywords.Keys <= o.tables.keywords.Keys
    decreases |vs| - from
  {
    if from == |vs| then Outcome(t, None)
    else
      var o := StoreKeywordIn(mode, t, Keyword(uuid(from), vs[from]), d);
      if o.thrown.Some? then o
      else StoreEach(mode, o.tables, d, vs, uuid, from + 1)
  }

  /** One step of a bulk store that raises nothing. */
  lemma StoreEachStep(mode: Mode, t: Tables, d: Domain, vs: seq<string>, uuid: nat -> Id, from: nat)
    requires from < |vs|
    requires StoreEach(mode, t, d, vs, uuid, from).thrown.None?
    ensures var o1 := StoreKeywordIn(mode, t, Keyword(uuid(from), vs[from]), d);
      && o1.thrown.None?
      && StoreEach(mode, t, d, vs, uuid, from) == StoreEach(mode, o1.tables, d, vs, uuid, from + 1)
      && uuid(from) in o1.tables.keywords && uuid(from) in Dups(o1.tables.domainKeywords, d.id)
      && o1.tables.keywords[uuid(from)] == Keyword(uuid(from), vs[from])
      && o1.tables.keywords.Keys == t.keywords.Keys + {uuid(from)}
  {
  }

  /** Later stores never drop a keyword record or a link. */
  lemma {:induction false} StoreEachKeepsLink(mode: Mode, t: Tables, d: Domain, vs: seq<string>, uuid: nat -> Id, from: nat, id: Id)
    requires from <= |vs|
    requires id in t.keywords && id in Dups(t.domainKeywords, d.id)
    ensures var o := StoreEach(mode, t, d, vs, uuid, from);
      id in o.tables.keywords && id in Dups(o.tables.domainKeywords, d.id)
    decreases |vs| - from
  {
    if from < |vs| {
      var o1 := StoreKeywordIn(mode, t, Keyword(uuid(from), vs[from]), d);
      if o1.thrown.None? {
        StoreEachKeepsLink(mode, o1.tables, d, vs, uuid, from + 1, id);
      }
    }
  }

  /** Later stores that do not draw `id` again keep its record. */
  lemma {:induction false} StoreEachKeepsRecord(mode: Mode, t: Tables, d: Domain, vs: seq<string>, uuid: nat -> Id, from: nat, id: Id)
    requires from <= |vs|
    requires id in t.keywords
    requires forall j :: from <= j < |vs| ==> uuid(j) != id
    ensures var o := StoreEach(mode, t, d, vs, uuid, from);
      id in o.tables.keywords && o.tables.keywords[id] == t.keywords[id]
    decreases |vs| - from
  {
    if from < |vs| {
      var o1 := StoreKeywordIn(mode, t, Keyword(uuid(from), vs[from]), d);
      if o1.thrown.None? {
        StoreEachKeepsRecord(mode, o1.tables, d, vs, uuid, from + 1, id);
      }
    }
  }

  /** A bulk store that raises nothing leaves every value's id stored and
      linked to the domain. */
  lemma {:induction false} StoreEachLinks(mode: Mode, t: Tables, d: Domain, vs: seq<string>, uuid: nat -> Id, from: nat)
    requires from <= |vs|
    requires StoreEach(mode, t, d, vs, uuid, from).thrown.None?
    ensures var o := StoreEach(mode, t, d, vs, uuid, from);
      forall i :: from <= i < |vs| ==> uuid(i) in o.tables.keywords && uuid(i) in Dups(o.tables.domainKeywords, d.id)
    decreases |vs| - from
  {
    if from < |vs| {
      StoreEachStep(mode, t, d, vs, uuid, from);
      var o1 := StoreKeywordIn(mode, t, Keyword(uuid(from), vs[from]), d);
      var o := StoreEach(mode, o1.tables, d, vs, uuid, from + 1);
      StoreEachLinks(mode, o1.tables, d, vs, uuid, from + 1);
      StoreEachKeepsLink(mode, o1.tables, d, vs, uuid, from + 1, uuid(from));
      LinkedJoin(o.tables, d, vs, uuid, from);
    }
  }

  /** The link of the first value joins the links of the rest. */
  lemma LinkedJoin(t: Tables, d: Domain, vs: seq<string>, uuid: nat -> Id, from: nat)
    requires from < |vs|
    requires uuid(from) in t.keywords && uuid(from) in Dups(t.domainKeywords, d.id)
    requires forall i :: from + 1 <= i < |vs| ==> uuid(i) in t.keywords && uuid(i) in Dups(t.domainKeywords, d.id)
    ensures forall i :: from <= i < |vs| ==> uuid(i) in t.keywords && uuid(i) in Dups(t.domainKeywords, d.id)
  {
  }

  /** The record under a value's id holds that value unless a later value
      drew the same id. */
  lemma {:induction false} StoreEachValues(mode: Mode, t: Tables, d: Domain, vs: seq<string>, uuid: nat -> Id, from: nat)
    requires from <= |vs|
    requires StoreEach(mode, t, d, vs, uuid, from).thrown.None?
    ensures var o := StoreEach(mode, t, d, vs, uuid, from);
      forall i :: from <= i < |vs| && LastDraw(uuid, i, |vs|) ==>
        uuid(i) in o.tables.keywords && o.tables.keywords[uuid(i)] == Keyword(uuid(i), vs[i])
    decreases |vs| - from
  {
    if from < |vs| {
      StoreEachStep(mode, t, d, vs, uuid, from);
      var o1 := StoreKeywordIn(mode, t, Keyword(uuid(from), vs[from]), d);
      var o := StoreEach(mode, o1.tables, d, vs, uuid, from + 1);
      StoreEachValues(mode, o1.tables, d, vs, uuid, from + 1);
      forall i | from <= i < |vs| && LastDraw(uuid, i, |vs|)
        ensures uuid(i) in o.tables.keywords && o.tables.keywords[uuid(i)] == Keyword(uuid(i), vs[i])
      {
        if i == from {
          StoreEachKeepsRecord(mode, o1.tables, d, vs, uuid, from + 1, uuid(from));
        }
      }
    }
  }

  /** Every keyword a bulk store adds has an id drawn for one of its values. */
  lemma {:induction false} StoreEachOnlyDrawn(mode: Mode, t: Tables, d: Domain, vs: seq<string>, uuid: nat -> Id, from: nat)
    requires from <= |vs|
    requires StoreEach(mode, t, d, vs, uuid, from).thrown.None?
    ensures var o := StoreEach(mode, t, d, vs, uuid, from);
      forall id :: id in o.tables.keywords && id !in t.keywords ==> exists i :: from <= i < |vs| && uuid(i) == id
    decreases |vs| - from
  {
    if from < |vs| {
      StoreEachStep(mode, t, d, vs, uuid, from);
      var o1 := StoreKeywordIn(mode, t, Keyword(uuid(from), vs[from]), d);
      StoreEachOnlyDrawn(mode, o1.tables, d, vs, uuid, from + 1);
    }
  }

  /** `store_bulk_keywords(d, text)`: `uuid(i)` is the id drawn for the
      `i`-th stored keyword. */
  function StoreBulkKeywords(mode: Mode, t: Tables, d: Domain, text: string, uuid: nat -> Id): (o: Outcome)
    ensures o.thrown.None? <==> |BulkValues(text)| == 0 || (mode.writable && !mode.mapFull)
    ensures o.tables.domains == t.domains && o.tables.rankings == t.rankings
  {
    StoreEach(mode, t, d, BulkValues(text), uuid, 0)
  }

  /** After a bulk store that raises nothing, each trimmed non-empty line
      is a keyword of the domain (the last one drawn for its id) and nothing
      else was added. */
  lemma BulkStored(mode: Mode, t: Tables, d: Domain, text: string, uuid: nat -> Id)
    requires StoreBulkKeywords(mode, t, d, text, uuid).thrown.None?
    ensures var o := StoreBulkKeywords(mode, t, d, text, uuid);
      var vs := BulkValues(text);
      && (forall i :: 0 <= i < |vs| ==> uuid(i) in o.tables.keywords && uuid(i) in Dups(o.tables.domainKeywords, d.id))
      && (forall i :: 0 <= i < |vs| && LastDraw(uuid, i, |vs|) ==> o.tables.keywords[uuid(i)] == Keyword(uuid(i), vs[i]))
      && (forall id :: id in o.tables.keywords && id !in t.keywords ==> exists i :: 0 <= i < |vs| && uuid(i) == id)
  {
    var vs := BulkValues(text);
    StoreEachLinks(mode, t, d, vs, uuid, 0);
    StoreEachValues(mode, t, d, vs, uuid, 0);
    StoreEachOnlyDrawn(mode, t, d, vs, uuid, 0);
  }

  /** Values written one per line. */
  function JoinLines(vs: seq<string>): string {
    if |vs| == 0 then ""
    else if |vs| == 1 then vs[0]
    else vs[0] + "\n" + JoinLines(vs[1..])
  }

  /** A line followed by more lines joins with a newline between. */
  lemma JoinCons(x: string, rest: seq<string>)
    requires |rest| > 0
    ensures JoinLines([x] + rest) == x + "\n" + JoinLines(rest)
  {
    assert ([x] + rest)[1..] == rest;
  }

  /** Joining the pieces between newlines with newlines gives the text
      back. */
  lemma {:induction false} JoinSplit(s: string)
    ensures JoinLines(Split(s)) == s
    decreases |s|
  {
    if |s| > 0 {
      var rest := Split(s[1..]);
      JoinSplit(s[1..]);
      if s[0] == '\n' {
        JoinCons("", rest);
        assert s == [s[0]] + s[1..];
      } else if |rest| == 1 {
        assert Split(s) == [[s[0]] + rest[0]];
        assert s == [s[0]] + s[1..];
      } else {
        JoinCons([s[0]] + rest[0], rest[1..]);
        JoinCons(rest[0], rest[1..]);
        assert rest == [rest[0]] + rest[1..];
        assert Split(s) == [[s[0]] + rest[0]] + rest[1..];
        assert s == [s[0]] + s[1..];
      }
    }
  }

  lemma {:induction false} SplitSingle(a: string)
    requires '\n' !in a
    ensures Split(a) == [a]
  {
    if |a| > 0 {
      SplitSingle(a[1..]);
      assert [a[0]] + a[1..] == a;
    }
  }

  lemma {:induction false} SplitAppend(a: string, b: string)
    requires '\n' !in a
    ensures Split(a + "\n" + b) == [a] + Split(b)
    decreases |a|
  {
    var s := a + "\n" + b;
    if |a| == 0 {
      assert s[0] == '\n' && s[1..] == b;
    } else {
      assert s[1..] == a[1..] + "\n" + b;
      SplitAppend(a[1..], b);
      assert [a[0]] + a[1..] == a;
    }
  }

  lemma {:induction false} SplitJoin(vs: seq<string>)
    requires |vs| > 0 && forall i :: 0 <= i < |vs| ==> '\n' !in vs[i]
    ensures Split(JoinLines(vs)) == vs
  {
    if |vs| == 1 {
      SplitSingle(vs[0]);
    } else {
      SplitAppend(vs[0], JoinLines(vs[1..]));
      SplitJoin(vs[1..]);
    }
  }

  lemma {:induction false} JoinEndsClean(vs: seq<string>)
    requires |vs| > 0 && forall i :: 0 <= i < |vs| ==> Clean(vs[i])
    ensures |JoinLines(vs)| > 0 && JoinLines(vs)[|JoinLines(vs)| - 1] != '\n'
  {
    assert Clean(vs[|vs| - 1]);
    if |vs| > 1 {
      JoinEndsClean(vs[1..]);
    }
  }

  lemma TrimClean(v: string)
    requires Clean(v)
    ensures Trim(v) == v
  {
  }

  lemma {:induction false} TrimmedClean(vs: seq<string>)
    requires forall i :: 0 <= i < |vs| ==> Clean(vs[i])
    ensures forall i :: 0 <= i < |vs| ==> '\n' !in vs[i]
    ensures TrimmedNonEmpty(vs) == vs
  {
    CleanLines(vs);
    if |vs| > 0 {
      CleanTail(vs);
      TrimmedClean(vs[1..]);
      TrimmedFirst(vs);
      assert [vs[0]] + vs[1..] == vs;
    }
  }

  /** Clean values hold no newline. */
  lemma CleanLines(vs: seq<string>)
    requires forall i :: 0 <= i < |vs| ==> Clean(vs[i])
    ensures forall i :: 0 <= i < |vs| ==> '\n' !in vs[i]
  {
    forall i | 0 <= i < |vs|
      ensures '\n' !in vs[i]
    {
      assert Clean(vs[i]);
    }
  }

  /** The values after the first are clean too. */
  lemma CleanTail(vs: seq<string>)
    requires |vs| > 0 && forall i :: 0 <= i < |vs| ==> Clean(vs[i])
    ensures forall i :: 0 <= i < |vs[1..]| ==> Clean(vs[1..][i])
  {
    forall i | 0 <= i < |vs[1..]|
      ensures Clean(vs[1..][i])
    {
      assert vs[1..][i] == vs[i + 1];
    }
  }

  /** A clean first value is kept, ahead of what the rest yields. */
  lemma TrimmedFirst(vs: seq<string>)
    requires |vs| > 0 && Clean(vs[0])
    requires forall i :: 0 <= i < |vs| ==> '\n' !in vs[i]
    ensures forall i :: 0 <= i < |vs[1..]| ==> '\n' !in vs[1..][i]
    ensures TrimmedNonEmpty(vs) == [vs[0]] + TrimmedNonEmpty(vs[1..])
  {
    TrimmedCons(vs[0], vs[1..]);
    assert [vs[0]] + vs[1..] == vs;
  }

  /** A clean first line is kept as it is. */
  lemma TrimmedCons(v: string, rest: seq<string>)
    requires Clean(v) && forall i :: 0 <= i < |rest| ==> '\n' !in rest[i]
    ensures forall i :: 0 <= i < |[v] + rest| ==> '\n' !in ([v] + rest)[i]
    ensures TrimmedNonEmpty([v] + rest) == [v] + TrimmedNonEmpty(rest)
  {
    var lines := [v] + rest;
    assert forall i :: 0 <= i < |lines| ==> '\n' !in lines[i] by {
      forall i | 0 <= i < |lines| ensures '\n' !in lines[i] {
        if i > 0 {
          assert lines[i] == rest[i - 1];
        }
      }
    }
    TrimClean(v);
    assert lines[0] == v && lines[1..] == rest;
  }

  /** Writing clean values one per line and bulk-reading the text gives the
      values back, in order. */
  lemma BulkValuesJoin(vs: seq<string>)
    requires forall i :: 0 <= i < |vs| ==> Clean(vs[i])
    ensures BulkValues(JoinLines(vs)) == vs
  {
    if |vs| > 0 {
      JoinEndsClean(vs);
      SplitJoin(vs);
      TrimmedClean(vs);
    }
  }
}
