/**
 * The value side of the factory's game registry: registry entries, the
 * `GameInfo` records handed to clients, Python's list slicing as used by
 * `listGames` and `next_n`, and the name filter of `_removeGame`.
 */
module Registry {
  import Games

  /** Opaque object reference minted by the object adapter. */
  type ObjRef = nat

  /** A registry entry `(name, servant, ref)`. */
  datatype GameEntry = GameEntry(name: string, servant: Games.Game, ref: ObjRef)

  /** `TicTacToe.GameInfo(name, ref)`: what a listing returns for one game. */
  datatype GameInfo = GameInfo(name: string, ref: ObjRef)

  function Min(a: nat, b: nat): nat
  {
    if a <= b then a else b
  }

  /** `map(lambda g: GameInfo(g[0], g[2]), entries)`. */
  function Infos(s: seq<GameEntry>): (r: seq<GameInfo>)
    ensures |r| == |s|
    ensures forall i :: 0 <= i < |s| ==> r[i] == GameInfo(s[i].name, s[i].ref)
  {
    if s == [] then [] else [GameInfo(s[0].name, s[0].ref)] + Infos(s[1..])
  }

  lemma InfosConcat(a: seq<GameEntry>, b: seq<GameEntry>)
    ensures Infos(a + b) == Infos(a) + Infos(b)
  {
  }

  /** `s[:n]` for a non-negative `n`: the first `n` entries, or all of them. */
  function Front<T>(s: seq<T>, n: nat): (r: seq<T>)
    ensures |r| == Min(n, |s|)
    ensures r <= s
  {
    s[..Min(n, |s|)]
  }

  /** `s[n:]` for a non-negative `n`: what is left after the front. */
  function Rest<T>(s: seq<T>, n: nat): (r: seq<T>)
    ensures |r| == |s| - Min(n, |s|)
    ensures Front(s, n) + r == s
  {
    s[Min(n, |s|)..]
  }

  /**
   * `listGames(n)` splits the registry: the returned infos followed by the
   * infos of the cursor's snapshot are the infos of every registered game, and
   * the cursor is created exactly when that snapshot is non-empty.
   */
  lemma ListingSplits(games: seq<GameEntry>, n: nat)
    ensures Infos(Front(games, n)) + Infos(Rest(games, n)) == Infos(games)
    ensures |Infos(Front(games, n))| == Min(n, |games|)
    ensures Rest(games, n) != [] <==> |games| > n
  {
    InfosConcat(Front(games, n), Rest(games, n));
  }

  /** The pages returned by successive calls and what remains afterwards. */
  datatype Paged<T> = Paged(pages: seq<seq<T>>, left: seq<T>)

  /**
   * Successive `next_n(sizes[0])`, `next_n(sizes[1])`, ... on a cursor whose
   * remaining list starts as `s`: each call returns the front and keeps the rest.
   */
  function Paginate<T>(s: seq<T>, sizes: seq<nat>): (r: Paged<T>)
    ensures |r.pages| == |sizes|
    ensures forall k :: 0 <= k < |sizes| ==> |r.pages[k]| <= sizes[k]
    ensures |r.left| <= |s|
  {
    if sizes == [] then Paged([], s)
    else
      var tail := Paginate(Rest(s, sizes[0]), sizes[1..]);
      Paged([Front(s, sizes[0])] + tail.pages, tail.left)
  }

  function Flatten<T>(pages: seq<seq<T>>): seq<T>
  {
    if pages == [] then [] else pages[0] + Flatten(pages[1..])
  }

  /**
   * Paging loses, duplicates and reorders nothing: the pages, in order,
   * followed by what is left, are the cursor's snapshot.
   */
  lemma {:induction false} PaginateLosesNothing<T>(s: seq<T>, sizes: seq<nat>)
    ensures Flatten(Paginate(s, sizes).pages) + Paginate(s, sizes).left == s
  {
    if sizes != [] {
      var front, rest := Front(s, sizes[0]), Rest(s, sizes[0]);
      var tail := Paginate(rest, sizes[1..]);
      PaginateLosesNothing(rest, sizes[1..]);
      var pages := [front] + tail.pages;
      assert Paginate(s, sizes) == Paged(pages, tail.left);
      assert pages[0] == front && pages[1..] == tail.pages;
      assert Flatten(pages) == front + Flatten(tail.pages);
      assert front + (Flatten(tail.pages) + tail.left) == s;
    }
  }

  /** Paging an exhausted cursor gives only empty pages. */
  lemma {:induction false} PaginateEmpty<T>(sizes: seq<nat>)
    ensures Paginate<T>([], sizes).left == []
    ensures forall k :: 0 <= k < |sizes| ==> Paginate<T>([], sizes).pages[k] == []
  {
    if sizes != [] {
      PaginateEmpty<T>(sizes[1..]);
    }
  }

  /**
   * Every page is full unless the cursor ran out: a page shorter than asked
   * for leaves the cursor empty, so every later page is empty too.
   */
  lemma {:induction false} PaginateGreedy<T>(s: seq<T>, sizes: seq<nat>)
    ensures forall k :: 0 <= k < |sizes| && |Paginate(s, sizes).pages[k]| < sizes[k] ==>
              Paginate(s, sizes).left == [] &&
              forall j :: k < j < |sizes| ==> Paginate(s, sizes).pages[j] == []
  {
    if sizes != [] {
      var r := Paginate(s, sizes);
      var rest := Rest(s, sizes[0]);
      var tail := Paginate(rest, sizes[1..]);
      PaginateGreedy(rest, sizes[1..]);
      assert r.pages == [Front(s, sizes[0])] + tail.pages && r.left == tail.left;
      if |Front(s, sizes[0])| < sizes[0] {
        assert rest == [];
        PaginateEmpty<T>(sizes[1..]);
      }
      forall k | 0 < k < |sizes| && |r.pages[k]| < sizes[k]
        ensures r.left == [] && forall j :: k < j < |sizes| ==> r.pages[j] == []
      {
        assert r.pages[k] == tail.pages[k - 1] && sizes[k] == sizes[1..][k - 1];
        forall j | k < j < |sizes|
          ensures r.pages[j] == []
        {
          assert r.pages[j] == tail.pages[j - 1];
        }
      }
    }
  }

  /** A cursor asked for at least one entry per call is drained after `|s|` calls. */
  lemma {:induction false} PaginateDrains<T>(s: seq<T>, sizes: seq<nat>)
    requires |sizes| >= |s|
    requires forall i :: 0 <= i < |sizes| ==> sizes[i] > 0
    ensures Paginate(s, sizes).left == []
  {
    if sizes != [] {
      var rest := sizes[1..];
      assert forall i :: 0 <= i < |rest| ==> rest[i] == sizes[i + 1];
      PaginateDrains(Rest(s, sizes[0]), rest);
    }
  }

  /**
   * `listGames(n)` followed by `next_n` calls on its cursor: the first page,
   * then the cursor's pages, then what the cursor still holds, are the registry's
   * list at the time of the listing, in registration order.
   */
  lemma ListingThenPaging<T>(games: seq<T>, n: nat, sizes: seq<nat>)
    ensures Front(games, n) + Flatten(Paginate(Rest(games, n), sizes).pages)
              + Paginate(Rest(games, n), sizes).left == games
  {
    PaginateLosesNothing(Rest(games, n), sizes);
  }

  /** The registry's key: no two entries share a name. */
  ghost predicate NamesDistinct(s: seq<GameEntry>)
  {
    forall i, j :: 0 <= i < j < |s| ==> s[i].name != s[j].name
  }

  /** `[g for g in games if g[0] != name]`. */
  function WithoutName(s: seq<GameEntry>, name: string): (r: seq<GameEntry>)
    ensures |r| <= |s|
    ensures forall i :: 0 <= i < |r| ==> r[i].name != name
  {
    if s == [] then []
    else (if s[0].name == name then [] else [s[0]]) + WithoutName(s[1..], name)
  }

  /**
   * Every entry with another name survives, as often as it occurred, and
   * nothing else is kept.
   */
  lemma {:induction false} WithoutNameCounts(s: seq<GameEntry>, name: string, e: GameEntry)
    ensures multiset(WithoutName(s, name))[e] == if e.name == name then 0 else multiset(s)[e]
  {
    if s != [] {
      var head := if s[0].name == name then [] else [s[0]];
      WithoutNameCounts(s[1..], name, e);
      assert s == [s[0]] + s[1..];
      assert multiset(WithoutName(s, name)) == multiset(head) + multiset(WithoutName(s[1..], name));
    }
  }

  /** The filter keeps only entries that were there. */
  lemma WithoutNameSubset(s: seq<GameEntry>, name: string)
    ensures forall e :: e in WithoutName(s, name) ==> e in s
  {
    forall e | e in WithoutName(s, name)
      ensures e in s
    {
      WithoutNameCounts(s, name, e);
    }
  }

  /** The filter works entry by entry, so it keeps the relative order of what it keeps. */
  lemma {:induction false} WithoutNameConcat(a: seq<GameEntry>, b: seq<GameEntry>, name: string)
    ensures WithoutName(a + b, name) == WithoutName(a, name) + WithoutName(b, name)
  {
    if a == [] {
      assert a + b == b;
    } else {
      var head := if a[0].name == name then [] else [a[0]];
      assert (a + b)[0] == a[0];
      assert (a + b)[1..] == a[1..] + b;
      WithoutNameConcat(a[1..], b, name);
      calc {
        WithoutName(a + b, name);
        head + WithoutName(a[1..] + b, name);
        head + (WithoutName(a[1..], name) + WithoutName(b, name));
        WithoutName(a, name) + WithoutName(b, name);
      }
    }
  }

  /** Removing a name that no entry has changes nothing. */
  lemma {:induction false} WithoutNameAbsent(s: seq<GameEntry>, name: string)
    requires forall i :: 0 <= i < |s| ==> s[i].name != name
    ensures WithoutName(s, name) == s
  {
    if s != [] {
      WithoutNameAbsent(s[1..], name);
      assert s == [s[0]] + s[1..];
    }
  }

  /** `_removeGame(n)` twice is `_removeGame(n)` once. */
  lemma WithoutNameIdempotent(s: seq<GameEntry>, name: string)
    ensures WithoutName(WithoutName(s, name), name) == WithoutName(s, name)
  {
    WithoutNameAbsent(WithoutName(s, name), name);
  }

  /** Prepending an entry whose name is new keeps the names distinct. */
  lemma ConsDistinct(e: GameEntry, t: seq<GameEntry>)
    requires NamesDistinct(t)
    requires forall j :: 0 <= j < |t| ==> t[j].name != e.name
    ensures NamesDistinct([e] + t)
  {
    var s := [e] + t;
    forall i, j | 0 <= i < j < |s|
      ensures s[i].name != s[j].name
    {
      assert s[j] == t[j - 1];
      if i > 0 {
        assert s[i] == t[i - 1];
      }
    }
  }

  /** Filtering keeps the names distinct. */
  lemma {:induction false} WithoutNameDistinct(s: seq<GameEntry>, name: string)
    requires NamesDistinct(s)
    ensures NamesDistinct(WithoutName(s, name))
  {
    if s != [] {
      var t := WithoutName(s[1..], name);
      assert NamesDistinct(s[1..]) by {
        forall i, j | 0 <= i < j < |s[1..]|
          ensures s[1..][i].name != s[1..][j].name
        {
          assert s[1..][i] == s[i + 1] && s[1..][j] == s[j + 1];
        }
      }
      WithoutNameDistinct(s[1..], name);
      if s[0].name != name {
        WithoutNameSubset(s[1..], name);
        forall j | 0 <= j < |t|
          ensures t[j].name != s[0].name
        {
          assert t[j] in s[1..];
          var k :| 0 <= k < |s[1..]| && s[1..][k] == t[j];
          assert s[k + 1] == t[j];
        }
        ConsDistinct(s[0], t);
      }
    }
  }

  /** Filtering out the name of a single entry that carries it. */
  lemma WithoutNameSplit(before: seq<GameEntry>, x: GameEntry, after: seq<GameEntry>)
    requires forall i :: 0 <= i < |before| ==> before[i].name != x.name
    requires forall i :: 0 <= i < |after| ==> after[i].name != x.name
    ensures WithoutName(before + [x] + after, x.name) == before + after
  {
    var name := x.name;
    var single := WithoutName([x], name);
    assert single == [] by {
      assert [x][1..] == [];
    }
    var left := WithoutName(before + [x], name);
    WithoutNameConcat(before, [x], name);
    WithoutNameAbsent(before, name);
    assert left == before;
    WithoutNameConcat(before + [x], after, name);
    WithoutNameAbsent(after, name);
  }

  /**
   * With distinct names, removing the name of entry `i` removes exactly that
   * entry and keeps the others in order.
   */
  lemma WithoutNameRemovesOne(s: seq<GameEntry>, i: nat)
    requires NamesDistinct(s) && i < |s|
    ensures WithoutName(s, s[i].name) == s[..i] + s[i + 1..]
  {
    var before, after := s[..i], s[i + 1..];
    forall k | 0 <= k < |after|
      ensures after[k].name != s[i].name
    {
      assert after[k] == s[i + 1 + k];
    }
    WithoutNameSplit(before, s[i], after);
    assert s == before + [s[i]] + after;
  }
}
