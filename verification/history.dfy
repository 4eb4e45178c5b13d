/** The entries of the generation history and the pure operations on them:
    the favourites filter, the favourite toggle on a tag list and the search
    for the first entry with a given timestamp. */
module History {

  datatype Option<T> = None | Some(value: T)

  /** The tag that marks an entry as a favourite. */
  const Favorite: string := "favorite"

  /** One recorded generation. A missing `tags` key is the empty list. */
  datatype Entry = Entry(timestamp: string, excuse: string, scenario: string, tags: seq<string>)

  predicate IsFavorite(e: Entry) { Favorite in e.tags }

  /** `a` can be obtained from `b` by deleting elements (order kept). */
  predicate IsSubsequence<T(==)>(a: seq<T>, b: seq<T>)
    decreases |b|
  {
    if a == [] then true
    else if b == [] then false
    else if a[0] == b[0] then IsSubsequence(a[1..], b[1..])
    else IsSubsequence(a, b[1..])
  }

  // ---------------------------------------------------------------- favourites

  /** The entries carrying the favourite tag, in storage order. */
  function Favorites(h: seq<Entry>): (r: seq<Entry>)
    ensures |r| <= |h|
    ensures forall i :: 0 <= i < |r| ==> IsFavorite(r[i])
  {
    if h == [] then []
    else (if IsFavorite(h[0]) then [h[0]] else []) + Favorites(h[1..])
  }

  /** Every favourite is kept with its multiplicity, and nothing else is kept. */
  lemma {:induction false} FavoritesCount(h: seq<Entry>, e: Entry)
    ensures multiset(Favorites(h))[e] == if IsFavorite(e) then multiset(h)[e] else 0
  {
    if h != [] {
      var head := if IsFavorite(h[0]) then [h[0]] else [];
      var rest := Favorites(h[1..]);
      FavoritesCount(h[1..], e);
      calc {
        multiset(Favorites(h))[e];
        multiset(head + rest)[e];
        multiset(head)[e] + multiset(rest)[e];
      }
      assert h == [h[0]] + h[1..];
      assert multiset(h)[e] == multiset{h[0]}[e] + multiset(h[1..])[e];
    }
  }

  /** An entry is among the favourites exactly when it is a stored favourite. */
  lemma FavoritesMembers(h: seq<Entry>)
    ensures forall e :: e in Favorites(h) <==> e in h && IsFavorite(e)
  {
    forall e
      ensures e in Favorites(h) <==> e in h && IsFavorite(e)
    {
      FavoritesCount(h, e);
      assert e in Favorites(h) <==> e in multiset(Favorites(h));
      assert e in h <==> e in multiset(h);
    }
  }

  /** The favourites keep the storage order of the history. */
  lemma {:induction false} FavoritesSubsequence(h: seq<Entry>)
    ensures IsSubsequence(Favorites(h), h)
  {
    if h != [] {
      var rest := Favorites(h[1..]);
      FavoritesSubsequence(h[1..]);
      if IsFavorite(h[0]) {
        assert Favorites(h) == [h[0]] + rest;
        assert ([h[0]] + rest)[1..] == rest;
      } else {
        assert Favorites(h) == rest;
        if rest != [] {
          assert IsFavorite(rest[0]);
        }
      }
    }
  }

  /** Filtering distributes over concatenation, so an appended entry shows up
      last among the favourites exactly when it is tagged. */
  lemma {:induction false} FavoritesAppend(a: seq<Entry>, b: seq<Entry>)
    ensures Favorites(a + b) == Favorites(a) + Favorites(b)
  {
    if a != [] {
      FavoritesAppend(a[1..], b);
      assert (a + b)[1..] == a[1..] + b;
    } else {
      assert a + b == b;
    }
  }

  // ---------------------------------------------------------------- tags

  /** The position of the first occurrence of `x`. */
  function IndexOf(s: seq<string>, x: string): (i: nat)
    requires x in s
    ensures i < |s| && s[i] == x && x !in s[..i]
  {
    if s[0] == x then 0 else 1 + IndexOf(s[1..], x)
  }

  /** Python's `list.remove(x)`: deletes the first occurrence of `x` only. */
  function RemoveFirst(s: seq<string>, x: string): (r: seq<string>)
    requires x in s
    ensures |r| == |s| - 1
    ensures multiset(r) == multiset(s) - multiset{x}
  {
    assert s == [s[0]] + s[1..];
    if s[0] == x then s[1..] else [s[0]] + RemoveFirst(s[1..], x)
  }

  /** `RemoveFirst` cuts out exactly the element at the first occurrence. */
  lemma {:induction false} RemoveFirstIsSplice(s: seq<string>, x: string)
    requires x in s
    ensures RemoveFirst(s, x) == s[..IndexOf(s, x)] + s[IndexOf(s, x) + 1..]
  {
    if s[0] != x {
      var t := s[1..];
      RemoveFirstIsSplice(t, x);
      var i := IndexOf(t, x);
      assert IndexOf(s, x) == i + 1;
      assert RemoveFirst(s, x) == [s[0]] + (t[..i] + t[i + 1..]);
      SpliceShift(s, i);
    }
  }

  lemma SpliceShift(s: seq<string>, i: nat)
    requires i + 1 < |s|
    ensures [s[0]] + (s[1..][..i] + s[1..][i + 1..]) == s[..i + 1] + s[i + 2..]
  {
    assert [s[0]] + s[1..][..i] == s[..i + 1];
    assert s[1..][i + 1..] == s[i + 2..];
  }

  /** Removing an element that was appended to a list not holding it gives the list back. */
  lemma {:induction false} RemoveFirstAppended(s: seq<string>, x: string)
    requires x !in s
    ensures RemoveFirst(s + [x], x) == s
  {
    if s != [] {
      assert (s + [x])[1..] == s[1..] + [x];
      RemoveFirstAppended(s[1..], x);
      assert s == [s[0]] + s[1..];
    }
  }

  /** The favourite flip of one tag list: remove the first `"favorite"` when
      present, otherwise append it at the end. The entry is a favourite
      afterwards exactly when it did not carry the tag exactly once before. */
  function ToggleTags(t: seq<string>): (r: seq<string>)
    ensures Favorite in t ==> multiset(r) == multiset(t) - multiset{Favorite}
    ensures Favorite in t ==> r == t[..IndexOf(t, Favorite)] + t[IndexOf(t, Favorite) + 1..]
    ensures Favorite !in t ==> r == t + [Favorite]
    ensures Favorite in r <==> multiset(t)[Favorite] != 1
  {
    if Favorite in t then
      RemoveFirstIsSplice(t, Favorite);
      var r := RemoveFirst(t, Favorite);
      assert Favorite in r <==> Favorite in multiset(r);
      r
    else
      assert Favorite in multiset(t) <==> Favorite in t;
      t + [Favorite]
  }

  /** Flipping twice a tag list without the favourite tag restores it exactly. */
  lemma ToggleTagsTwice(t: seq<string>)
    requires Favorite !in t
    ensures ToggleTags(ToggleTags(t)) == t
  {
    RemoveFirstAppended(t, Favorite);
  }

  /** Flipping twice a tag list holding the favourite tag once restores its tags
      as a multiset; the tag moves to the end of the list. */
  lemma ToggleTagsTwiceFavorite(t: seq<string>)
    requires multiset(t)[Favorite] == 1
    ensures multiset(ToggleTags(ToggleTags(t))) == multiset(t)
    ensures ToggleTags(ToggleTags(t)) == RemoveFirst(t, Favorite) + [Favorite]
  {
  }

  /** The toggle applied to one entry: only its tags change. */
  function ToggleEntry(e: Entry): (r: Entry)
    ensures r.timestamp == e.timestamp && r.excuse == e.excuse && r.scenario == e.scenario
    ensures IsFavorite(r) <==> multiset(e.tags)[Favorite] != 1
  {
    e.(tags := ToggleTags(e.tags))
  }

  // ---------------------------------------------------------------- search

  /** `i` is the first position in storage order whose timestamp is `ts`. */
  predicate IsFirstMatch(h: seq<Entry>, ts: string, i: nat)
  {
    i < |h| && h[i].timestamp == ts && forall j :: 0 <= j < i ==> h[j].timestamp != ts
  }

  predicate NoMatch(h: seq<Entry>, ts: string)
  {
    forall j :: 0 <= j < |h| ==> h[j].timestamp != ts
  }

  /** The first entry whose timestamp equals `ts`, if any. */
  function FirstMatch(h: seq<Entry>, ts: string): (r: Option<nat>)
    ensures r.Some? ==> IsFirstMatch(h, ts, r.value)
    ensures r.None? ==> NoMatch(h, ts)
  {
    if h == [] then None
    else if h[0].timestamp == ts then Some(0)
    else match FirstMatch(h[1..], ts)
      case None => None
      case Some(i) => Some(i + 1)
  }

  lemma FirstMatchUnique(h: seq<Entry>, ts: string, i: nat)
    requires IsFirstMatch(h, ts, i)
    ensures FirstMatch(h, ts) == Some(i)
  {
  }

  /** The scan of the history for the first entry with the given timestamp. */
  method FindFirstMatch(h: seq<Entry>, ts: string) returns (r: Option<nat>)
    ensures r == FirstMatch(h, ts)
  {
    var i := 0;
    while i < |h|
      invariant i <= |h|
      invariant forall j :: 0 <= j < i ==> h[j].timestamp != ts
    {
      if h[i].timestamp == ts {
        FirstMatchUnique(h, ts, i);
        return Some(i);
      }
      i := i + 1;
    }
    return None;
  }

  /** The history after a favourite toggle: the first matching entry has its
      tags flipped; with no match the history is unchanged. */
  function Toggled(h: seq<Entry>, ts: string): (r: seq<Entry>)
    ensures |r| == |h|
    ensures forall j :: 0 <= j < |h| ==> r[j].timestamp == h[j].timestamp
    ensures FirstMatch(r, ts) == FirstMatch(h, ts)
  {
    match FirstMatch(h, ts)
    case None => h
    case Some(i) =>
      var r := h[i := ToggleEntry(h[i])];
      assert IsFirstMatch(r, ts, i);
      FirstMatchUnique(r, ts, i);
      r
  }

  /** A toggle keeps the length, every timestamp, excuse and scenario, and every
      entry other than the first match. */
  lemma ToggledFrame(h: seq<Entry>, ts: string)
    ensures |Toggled(h, ts)| == |h|
    ensures NoMatch(h, ts) ==> Toggled(h, ts) == h
    ensures forall j :: 0 <= j < |h| ==>
      var e, e' := h[j], Toggled(h, ts)[j];
      e'.timestamp == e.timestamp && e'.excuse == e.excuse && e'.scenario == e.scenario &&
      (!IsFirstMatch(h, ts, j) ==> e' == e) &&
      (IsFirstMatch(h, ts, j) ==> e'.tags == ToggleTags(e.tags))
  {
    match FirstMatch(h, ts)
    case None =>
    case Some(i) =>
      forall j | 0 <= j < |h| && IsFirstMatch(h, ts, j)
        ensures j == i
      {
        FirstMatchUnique(h, ts, j);
      }
  }

  /** Toggling the same timestamp twice, starting from a first match without the
      favourite tag, gives the history back. */
  lemma {:induction false} ToggledTwice(h: seq<Entry>, ts: string)
    requires FirstMatch(h, ts).Some? ==> Favorite !in h[FirstMatch(h, ts).value].tags
    ensures Toggled(Toggled(h, ts), ts) == h
  {
    match FirstMatch(h, ts)
    case None =>
    case Some(i) =>
      var h' := Toggled(h, ts);
      ToggleTagsTwice(h[i].tags);
      assert h'[i := ToggleEntry(h'[i])] == h;
  }

  /** Toggling twice a first match holding the favourite tag once keeps every
      entry but that one, whose tags keep their multiset while the tag moves
      to the end. */
  lemma {:induction false} ToggledTwiceFavorite(h: seq<Entry>, ts: string, i: nat)
    requires FirstMatch(h, ts) == Some(i) && multiset(h[i].tags)[Favorite] == 1
    ensures Toggled(Toggled(h, ts), ts) ==
            h[i := h[i].(tags := RemoveFirst(h[i].tags, Favorite) + [Favorite])]
    ensures multiset(Toggled(Toggled(h, ts), ts)[i].tags) == multiset(h[i].tags)
  {
    var h' := Toggled(h, ts);
    ToggleTagsTwiceFavorite(h[i].tags);
    assert h'[i := ToggleEntry(h'[i])] ==
           h[i := h[i].(tags := RemoveFirst(h[i].tags, Favorite) + [Favorite])];
  }

  /** Two toggles do not undo each other on a tag list holding the favourite
      tag twice: each removes one copy. */
  lemma ToggleTagsTwiceDoubleFavorite()
    ensures ToggleTags(ToggleTags([Favorite, Favorite])) == []
  {
    assert ToggleTags([Favorite, Favorite]) == [Favorite];
  }
}
