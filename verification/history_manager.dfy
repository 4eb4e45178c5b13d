/** The history manager: an in-memory list of generated entries that grows for
    the lifetime of the process, and a backing file that every mutation
    rewrites with the newest `maxItems` entries. */
module Manager {
  import opened PySlice
  import opened History

  class HistoryManager {
    /** The configured cap on the persisted entries. */
    const maxItems: int
    /** The in-memory history, oldest first; it is never truncated. */
    var history: seq<Entry>
    /** The content of the backing file; None while the file does not exist. */
    ghost var file: Option<seq<Entry>>

    /** The backing file holds the window of the current history. */
    ghost predicate Synced()
      reads this
    {
      file == Some(FromNeg(history, maxItems))
    }

    /** Loads the history from the backing file, or starts empty when there is none. */
    constructor (maxItems: int, stored: Option<seq<Entry>>)
      ensures this.maxItems == maxItems && file == stored
      ensures history == match stored case None => [] case Some(s) => s
    {
      this.maxItems := maxItems;
      history := match stored case None => [] case Some(s) => s;
      file := stored;
    }

    /** Rewrites the backing file with the newest `maxItems` entries. */
    method SaveHistory()
      modifies this`file
      ensures Synced()
    {
      file := Some(FromNeg(history, maxItems));
    }

    /** Records a new entry; `timestamp` is the creation instant supplied by the caller. */
    method AddExcuse(timestamp: string, excuse: string, scenario: string, tags: seq<string>)
      modifies this
      ensures history == old(history) + [Entry(timestamp, excuse, scenario, tags)]
      ensures Synced()
      ensures maxItems > 0 ==> |file.value| == Min(maxItems, |history|)
    {
      history := history + [Entry(timestamp, excuse, scenario, tags)];
      SaveHistory();
    }

    /** Python's `history[-limit:]`. */
    function GetHistory(limit: int := 10): (r: seq<Entry>)
      reads this
      ensures r == FromNeg(history, limit)
      ensures limit > 0 ==> |r| == Min(limit, |history|) && r == history[|history| - |r|..]
      ensures limit == 0 ==> r == history
      ensures limit < 0 ==> r == if -limit <= |history| then history[-limit..] else []
    {
      FromNeg(history, limit)
    }

    /** The favourite entries, in storage order. */
    function GetFavorites(): (r: seq<Entry>)
      reads this
      ensures r == Favorites(history)
      ensures IsSubsequence(r, history)
      ensures forall e :: e in r <==> e in history && IsFavorite(e)
    {
      FavoritesSubsequence(history);
      FavoritesMembers(history);
      Favorites(history)
    }

    /** Flips the favourite tag of the first entry whose timestamp is `ts` and
        rewrites the file; with no such entry nothing happens. */
    method ToggleFavorite(ts: string) returns (found: bool)
      modifies this
      ensures found <==> !NoMatch(old(history), ts)
      ensures history == Toggled(old(history), ts)
      ensures found ==> Synced()
      ensures !found ==> history == old(history) && file == old(file)
    {
      var m := FindFirstMatch(history, ts);
      match m
      case None =>
        found := false;
      case Some(i) =>
        var e := history[i];
        var tags := e.tags;
        if Favorite in tags {
          tags := RemoveFirst(tags, Favorite);
        } else {
          tags := tags + [Favorite];
        }
        history := history[i := e.(tags := tags)];
        SaveHistory();
        found := true;
    }
  }

  /** A history already at the cap of three: adding D persists exactly [B, C, D]
      while the in-memory history keeps all four. */
  method WindowScenario(a: Entry, b: Entry, c: Entry, ts: string)
  {
    var m := new HistoryManager(3, Some([a, b, c]));
    m.AddExcuse(ts, "excuse text", "work", ["professional", "medium"]);
    var d := Entry(ts, "excuse text", "work", ["professional", "medium"]);
    assert m.history == [a, b, c, d];
    assert m.file == Some([b, c, d]);
    assert m.GetHistory(1) == [d];
  }

  /** Toggling an unknown timestamp leaves the history and the file alone;
      toggling a known one twice gives the history back. */
  method ToggleScenario(e: Entry, other: string)
    requires other != e.timestamp && Favorite !in e.tags
  {
    var m := new HistoryManager(10, Some([e]));
    ghost var saved := m.file;
    var ok := m.ToggleFavorite(other);
    assert !ok && m.history == [e] && m.file == saved;
    assert IsFirstMatch([e], e.timestamp, 0);
    ok := m.ToggleFavorite(e.timestamp);
    assert ok && IsFavorite(m.history[0]);
    ok := m.ToggleFavorite(e.timestamp);
    ToggledTwice([e], e.timestamp);
    assert ok && m.history == [e];
  }
}
