/** The subreddit table: one row per tracked subreddit with its indexed
    flag, names unique. Accepting an invite inserts a row unless the name is
    present, a finished backfill sets the flag, and a removal deletes the
    row. Seen as a map from name to flag, these are insert-if-absent, set,
    and key removal. */
module Communities {

  /** A row of the subreddit table (and of the in-memory list). */
  datatype SubData = SubData(name: string, indexed: bool)

  /** The names in a table. */
  function Names(t: seq<SubData>): set<string>
  {
    set r | r in t :: r.name
  }

  /** No two rows share a name (the table's unique key). */
  predicate UniqueNames(t: seq<SubData>)
  {
    forall i, j :: 0 <= i < j < |t| ==> t[i].name != t[j].name
  }

  /** The table as a map from name to indexed flag. */
  function AsMap(t: seq<SubData>): map<string, bool>
    decreases |t|
  {
    if t == [] then map[]
    else AsMap(t[..|t| - 1])[t[|t| - 1].name := t[|t| - 1].indexed]
  }

  lemma NamesAppend(t: seq<SubData>, r: SubData)
    ensures Names(t + [r]) == Names(t) + {r.name}
  {
    assert forall x :: x in t + [r] <==> x in t || x == r;
  }

  /** The map's keys are the table's names. */
  lemma {:induction false} AsMapKeys(t: seq<SubData>)
    ensures AsMap(t).Keys == Names(t)
    decreases |t|
  {
    if t != [] {
      var init := t[..|t| - 1];
      AsMapKeys(init);
      assert t == init + [t[|t| - 1]];
      NamesAppend(init, t[|t| - 1]);
    }
  }

  /** INSERT ... VALUES(name, FALSE) ON CONFLICT DO NOTHING: the name is
      tracked afterwards, the existing rows stay as they are, and at most
      one row is added. */
  function InsertIfAbsent(t: seq<SubData>, name: string): (r: seq<SubData>)
    ensures Names(r) == Names(t) + {name}
    ensures t <= r && |r| <= |t| + 1
  {
    if name in Names(t) then t
    else
      NamesAppend(t, SubData(name, false));
      t + [SubData(name, false)]
  }

  /** DELETE FROM subreddits WHERE name = ...: the name is gone, every other
      name stays, and no row is added. */
  function DeleteNamed(t: seq<SubData>, name: string): (r: seq<SubData>)
    ensures Names(r) == Names(t) - {name}
    ensures |r| <= |t|
    decreases |t|
  {
    if t == [] then []
    else
      var init := t[..|t| - 1];
      var last := t[|t| - 1];
      assert t == init + [last];
      NamesAppend(init, last);
      NamesAppend(DeleteNamed(init, name), last);
      DeleteNamed(init, name) + (if last.name == name then [] else [last])
  }

  /** UPDATE subreddits SET indexed = TRUE WHERE name = ... */
  function MarkIndexed(t: seq<SubData>, name: string): (r: seq<SubData>)
    ensures |r| == |t|
  {
    seq(|t|, i requires 0 <= i < |t| => if t[i].name == name then SubData(name, true) else t[i])
  }

  lemma {:induction false} AsMapAppend(t: seq<SubData>, r: SubData)
    ensures AsMap(t + [r]) == AsMap(t)[r.name := r.indexed]
  {
    assert (t + [r])[..|t + [r]| - 1] == t;
  }

  /** Accepting an invite: a new name joins with indexed = false; a name
      already tracked keeps its flag and the table is unchanged. */
  lemma InsertIfAbsentMap(t: seq<SubData>, name: string)
    ensures AsMap(InsertIfAbsent(t, name)) ==
      if name in AsMap(t) then AsMap(t) else AsMap(t)[name := false]
    ensures name in AsMap(t) ==> InsertIfAbsent(t, name) == t
    ensures UniqueNames(t) ==> UniqueNames(InsertIfAbsent(t, name))
  {
    AsMapKeys(t);
    if name !in Names(t) {
      AsMapAppend(t, SubData(name, false));
      if UniqueNames(t) {
        forall i | 0 <= i < |t|
          ensures t[i].name != name
        {
          assert t[i] in t;
        }
      }
    }
  }

  lemma DeleteNamedLast(t: seq<SubData>, name: string)
    requires t != []
    ensures DeleteNamed(t, name) ==
      DeleteNamed(t[..|t| - 1], name) + (if t[|t| - 1].name == name then [] else [t[|t| - 1]])
  {
  }

  lemma UpdateThenRemove(m: map<string, bool>, k: string, v: bool)
    ensures m[k := v] - {k} == m - {k}
  {
  }

  lemma RemoveThenUpdate(m: map<string, bool>, n: string, k: string, v: bool)
    requires k != n
    ensures (m - {n})[k := v] == m[k := v] - {n}
  {
  }

  /** A removal deletes the name and keeps every other entry. */
  lemma {:induction false} DeleteNamedMap(t: seq<SubData>, name: string)
    ensures AsMap(DeleteNamed(t, name)) == AsMap(t) - {name}
    decreases |t|
  {
    if t != [] {
      var init := t[..|t| - 1];
      var last := t[|t| - 1];
      DeleteNamedMap(init, name);
      DeleteNamedLast(t, name);
      var m := AsMap(init);
      assert AsMap(t) == m[last.name := last.indexed];
      if last.name == name {
        assert DeleteNamed(t, name) == DeleteNamed(init, name);
        UpdateThenRemove(m, name, last.indexed);
      } else {
        assert DeleteNamed(t, name) == DeleteNamed(init, name) + [last];
        AsMapAppend(DeleteNamed(init, name), last);
        RemoveThenUpdate(m, name, last.name, last.indexed);
      }
    }
  }

  /** Deletion keeps the remaining rows, in order, so names stay unique. */
  lemma {:induction false} DeleteNamedUnique(t: seq<SubData>, name: string)
    requires UniqueNames(t)
    ensures UniqueNames(DeleteNamed(t, name))
    ensures Names(DeleteNamed(t, name)) == Names(t) - {name}
    decreases |t|
  {
    if t != [] {
      var init := t[..|t| - 1];
      var last := t[|t| - 1];
      assert t == init + [last];
      NamesAppend(init, last);
      DeleteNamedUnique(init, name);
      DeleteNamedLast(t, name);
      var d := DeleteNamed(init, name);
      if last.name == name {
        assert DeleteNamed(t, name) == d;
      } else {
        assert DeleteNamed(t, name) == d + [last];
        NamesAppend(d, last);
        assert last.name !in Names(init) by {
          forall r | r in init
            ensures r.name != last.name
          {
            var i :| 0 <= i < |init| && init[i] == r;
            assert t[i] == r;
          }
        }
        forall i | 0 <= i < |d|
          ensures d[i].name != last.name
        {
          assert d[i] in d;
        }
      }
    }
  }

  lemma MarkIndexedLast(t: seq<SubData>, name: string)
    requires t != []
    ensures MarkIndexed(t, name) == MarkIndexed(t[..|t| - 1], name) +
      [if t[|t| - 1].name == name then SubData(name, true) else t[|t| - 1]]
  {
  }

  lemma UpdatesCommute(m: map<string, bool>, k1: string, v1: bool, k2: string, v2: bool)
    requires k1 != k2
    ensures m[k1 := v1][k2 := v2] == m[k2 := v2][k1 := v1]
  {
  }

  /** A finished backfill sets the flag of its subreddit and leaves every
      other entry, and the set of names, as they were. */
  lemma {:induction false} MarkIndexedMap(t: seq<SubData>, name: string)
    ensures AsMap(MarkIndexed(t, name)) ==
      if name in AsMap(t) then AsMap(t)[name := true] else AsMap(t)
    decreases |t|
  {
    if t != [] {
      var init := t[..|t| - 1];
      var last := t[|t| - 1];
      var last' := if last.name == name then SubData(name, true) else last;
      MarkIndexedMap(init, name);
      MarkIndexedLast(t, name);
      AsMapAppend(MarkIndexed(init, name), last');
      var m := AsMap(init);
      assert AsMap(t) == m[last.name := last.indexed];
      var mm := if name in m then m[name := true] else m;
      assert AsMap(MarkIndexed(t, name)) == mm[last'.name := last'.indexed];
      if last.name != name && name in m {
        UpdatesCommute(m, name, true, last.name, last.indexed);
      }
    }
  }

  /** The indexed flag is monotone: setting it never clears a flag, and
      names stay unique. */
  lemma MarkIndexedMonotone(t: seq<SubData>, name: string)
    ensures forall n :: n in AsMap(t) && AsMap(t)[n] ==> n in AsMap(MarkIndexed(t, name)) && AsMap(MarkIndexed(t, name))[n]
    ensures UniqueNames(t) ==> UniqueNames(MarkIndexed(t, name))
  {
    MarkIndexedMap(t, name);
  }
}
