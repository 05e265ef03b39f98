/** The stage_attribute table under `update_stage_attribute`, and the attribute half of `copy_data`. */
module StageAttributes {
  import opened Prelude

  datatype Attr = Attr(id: nat, stage: int, name: string, value: string)

  /** What a lookup of (stage, name) reads: the first row by id. */
  function ReadAttr(rows: seq<Attr>, stage: int, name: string): Option<string> {
    if rows == [] then None else
      var n := |rows| - 1;
      var front := ReadAttr(rows[..n], stage, name);
      if front.Some? then front
      else if rows[n].stage == stage && rows[n].name == name then Some(rows[n].value) else None
  }

  lemma ReadLast(rows: seq<Attr>, a: Attr, stage: int, name: string)
    ensures ReadAttr(rows + [a], stage, name)
         == if ReadAttr(rows, stage, name).Some? then ReadAttr(rows, stage, name)
            else if a.stage == stage && a.name == name then Some(a.value) else None
  {
    assert (rows + [a])[..|rows|] == rows;
  }

  /** Rewriting the first row of a pair changes what that pair reads, and no other. */
  lemma {:induction false} ReadRewritten(rows: seq<Attr>, k: nat, value: string, stage: int, name: string)
    requires k < |rows| && ReadAttr(rows[..k], rows[k].stage, rows[k].name).None?
    ensures ReadAttr(rows[k := rows[k].(value := value)], stage, name)
         == if stage == rows[k].stage && name == rows[k].name then Some(value) else ReadAttr(rows, stage, name)
  {
    var n := |rows| - 1;
    var after := rows[k := rows[k].(value := value)];
    if k == n {
      assert after[..n] == rows[..n];
    } else {
      assert rows[..n][..k] == rows[..k];
      assert after[..n] == rows[..n][k := rows[..n][k].(value := value)];
      ReadRewritten(rows[..n], k, value, stage, name);
    }
  }

  function RowsOfStage(rows: seq<Attr>, stage: int): seq<Attr> {
    if rows == [] then [] else
      var n := |rows| - 1;
      RowsOfStage(rows[..n], stage) + if rows[n].stage == stage then [rows[n]] else []
  }

  /** The last non-empty value among rows of a name. */
  function Latest(rows: seq<Attr>, name: string): Option<string> {
    if rows == [] then None else
      var n := |rows| - 1;
      if rows[n].name == name && rows[n].value != "" then Some(rows[n].value) else Latest(rows[..n], name)
  }

  function Over(value: Option<string>, before: Option<string>): Option<string> {
    if value.Some? then value else before
  }

  class AttributeTable {
    var rows: seq<Attr>
    var nextId: nat

    /** An empty value is ignored; an existing pair is overwritten in its first row, a new one inserted. */
    method UpdateStageAttribute(stage: int, name: string, value: string)
      modifies this
      ensures value == "" || stage == 0 ==> rows == old(rows)
      ensures value != "" && stage != 0 ==> ReadAttr(rows, stage, name) == Some(value)
      ensures forall s, n :: s != stage || n != name ==> ReadAttr(rows, s, n) == ReadAttr(old(rows), s, n)
    {
      if value == "" || stage == 0 {
        return;
      }
      assert rows[..0] == [];
      for k := 0 to |rows|
        invariant rows == old(rows) && ReadAttr(rows[..k], stage, name).None?
      {
        if rows[k].stage == stage && rows[k].name == name {
          forall s, n ensures ReadAttr(rows[k := rows[k].(value := value)], s, n)
                           == if s == stage && n == name then Some(value) else ReadAttr(rows, s, n) {
            ReadRewritten(rows, k, value, s, n);
          }
          rows := rows[k := rows[k].(value := value)];
          return;
        }
        assert rows[..k + 1] == rows[..k] + [rows[k]];
        ReadLast(rows[..k], rows[k], stage, name);
      }
      assert rows[..|rows|] == rows;
      var a := Attr(nextId, stage, name, value);
      forall s, n ensures ReadAttr(rows + [a], s, n) == if s == stage && n == name then Some(value) else ReadAttr(rows, s, n) {
        ReadLast(rows, a, s, n);
      }
      rows := rows + [a];
      nextId := nextId + 1;
    }

    /** The first loop of copy_data: the copy reads, for each name, the last non-empty value its source stored,
        and what it read before for names the source does not set; nothing else reads differently. */
    method CopyAttributes(source: int, target: int)
      requires target != 0
      modifies this
      ensures forall n :: ReadAttr(rows, target, n) == Over(Latest(RowsOfStage(old(rows), source), n), ReadAttr(old(rows), target, n))
      ensures forall s, n :: s != target ==> ReadAttr(rows, s, n) == ReadAttr(old(rows), s, n)
    {
      var fetched := RowsOfStage(rows, source);
      assert fetched[..0] == [];
      for i := 0 to |fetched|
        invariant forall n :: ReadAttr(rows, target, n) == Over(Latest(fetched[..i], n), ReadAttr(old(rows), target, n))
        invariant forall s, n :: s != target ==> ReadAttr(rows, s, n) == ReadAttr(old(rows), s, n)
      {
        UpdateStageAttribute(target, fetched[i].name, fetched[i].value);
        assert fetched[..i + 1][..i] == fetched[..i];
      }
      assert fetched[..|fetched|] == fetched;
    }
  }

  predicate RowOf(rows: seq<Attr>, stage: int, name: string, i: int) {
    0 <= i < |rows| && rows[i].stage == stage && rows[i].name == name
  }

  predicate ValueAt(rows: seq<Attr>, stage: int, name: string, i: int) {
    RowOf(rows, stage, name, i) && rows[i].value != ""
  }

  /** The first row of the pair, which a lookup reads. */
  ghost predicate IsFirst(rows: seq<Attr>, stage: int, name: string, i: int) {
    RowOf(rows, stage, name, i) && forall k :: k < i ==> !RowOf(rows, stage, name, k)
  }

  /** The last row of the pair with a value, which the copy ends on. */
  ghost predicate IsLast(rows: seq<Attr>, stage: int, name: string, i: int) {
    ValueAt(rows, stage, name, i) && forall k :: i < k ==> !ValueAt(rows, stage, name, k)
  }

  lemma {:induction false} ReadIsFirst(rows: seq<Attr>, stage: int, name: string) returns (i: int)
    ensures match ReadAttr(rows, stage, name)
      case None => forall k :: !RowOf(rows, stage, name, k)
      case Some(v) => IsFirst(rows, stage, name, i) && rows[i].value == v
  {
    i := 0;
    if rows != [] {
      var n := |rows| - 1;
      i := ReadIsFirst(rows[..n], stage, name);
      forall k | k < n ensures RowOf(rows[..n], stage, name, k) <==> RowOf(rows, stage, name, k) {}
      if ReadAttr(rows[..n], stage, name).None? {
        i := n;
      }
    }
  }

  lemma {:induction false} LatestIsLast(rows: seq<Attr>, stage: int, name: string) returns (i: int)
    ensures match Latest(RowsOfStage(rows, stage), name)
      case None => forall k :: !ValueAt(rows, stage, name, k)
      case Some(v) => IsLast(rows, stage, name, i) && rows[i].value == v
  {
    i := 0;
    if rows != [] {
      var n := |rows| - 1;
      var of := RowsOfStage(rows[..n], stage);
      i := LatestIsLast(rows[..n], stage, name);
      forall k | k < n ensures ValueAt(rows[..n], stage, name, k) <==> ValueAt(rows, stage, name, k) {}
      assert of + [] == of;
      assert (of + [rows[n]])[..|of|] == of;
      if ValueAt(rows, stage, name, n) {
        i := n;
      }
    }
  }

  /** A new copy reads a name as its source does, an empty value being no value. */
  ghost predicate CopiesAlike(rows: seq<Attr>, source: int, name: string) {
    Latest(RowsOfStage(rows, source), name)
    == match ReadAttr(rows, source, name) case None => None case Some(v) => if v == "" then None else Some(v)
  }

  /** It does exactly when the first row of the name holds what the last one with a value holds. */
  lemma CopyReadsAsSource(rows: seq<Attr>, source: int, name: string)
    ensures CopiesAlike(rows, source, name)
       <==> forall i, j :: IsFirst(rows, source, name, i) && IsLast(rows, source, name, j) ==> rows[i].value == rows[j].value
  {
    var first := ReadIsFirst(rows, source, name);
    var last := LatestIsLast(rows, source, name);
    assert forall i :: IsFirst(rows, source, name, i) ==> RowOf(rows, source, name, i);
    assert forall j :: IsLast(rows, source, name, j) ==> ValueAt(rows, source, name, j) && RowOf(rows, source, name, j);
    if ReadAttr(rows, source, name).Some? && Latest(RowsOfStage(rows, source), name).Some? {
      assert IsFirst(rows, source, name, first) && IsLast(rows, source, name, last);
    }
  }

  /** The rows with other values. */
  function Revalued(rows: seq<Attr>, values: seq<string>): (r: seq<Attr>)
    requires |values| == |rows|
    ensures |r| == |rows| && forall i :: 0 <= i < |rows| ==> r[i] == rows[i].(value := values[i])
  {
    seq(|rows|, i requires 0 <= i < |rows| => rows[i].(value := values[i]))
  }

  ghost predicate StoredOnce(rows: seq<Attr>, stage: int, name: string) {
    forall i, j :: RowOf(rows, stage, name, i) && RowOf(rows, stage, name, j) ==> i == j
  }

  /** Whatever the values are, a copy reads the name as its source does exactly when the source stores it once at most. */
  lemma CopyIsFaithful(rows: seq<Attr>, source: int, name: string)
    ensures (forall values: seq<string> :: |values| == |rows| ==> CopiesAlike(Revalued(rows, values), source, name))
       <==> StoredOnce(rows, source, name)
  {
    if StoredOnce(rows, source, name) {
      forall values: seq<string> | |values| == |rows| ensures CopiesAlike(Revalued(rows, values), source, name) {
        var now := Revalued(rows, values);
        forall i ensures RowOf(now, source, name, i) <==> RowOf(rows, source, name, i) {}
        CopyReadsAsSource(now, source, name);
      }
    } else {
      var i, j :| RowOf(rows, source, name, i) && RowOf(rows, source, name, j) && i != j;
      var values := TwoValues(rows, source, name, if i < j then i else j, if i < j then j else i);
      assert !CopiesAlike(Revalued(rows, values), source, name);
    }
  }

  /** Any two rows of a name tell the copy from its source: the first gets one value, the rest another. */
  lemma TwoValues(rows: seq<Attr>, source: int, name: string, i: int, j: int) returns (values: seq<string>)
    requires RowOf(rows, source, name, i) && RowOf(rows, source, name, j) && i < j
    ensures |values| == |rows| && !CopiesAlike(Revalued(rows, values), source, name)
  {
    var first := ReadIsFirst(rows, source, name);
    values := seq(|rows|, k => if k == first then "a" else "b");
    var now := Revalued(rows, values);
    forall k ensures RowOf(now, source, name, k) <==> RowOf(rows, source, name, k) {}
    var last := LatestIsLast(now, source, name);
    assert ValueAt(now, source, name, j) && first < j;
    assert IsFirst(now, source, name, first) && IsLast(now, source, name, last) && first < last;
    CopyReadsAsSource(now, source, name);
  }

  /** A name stored twice is read from its first row by the source and copied from its last. */
  lemma RepeatedNameReadsDifferently(target: int)
    ensures var rows := [Attr(1, 10, "cover", "a"), Attr(2, 10, "cover", "b")];
      ReadAttr(rows, 10, "cover") == Some("a") && Latest(RowsOfStage(rows, 10), "cover") == Some("b")
  {
    var a, b := Attr(1, 10, "cover", "a"), Attr(2, 10, "cover", "b");
    assert [a, b][..1] == [a] && [a][..0] == [];
    assert [a, b] == [a] + [b];
    ReadLast([a], b, 10, "cover");
    assert RowsOfStage([a], 10) == [a];
    assert RowsOfStage([a, b], 10) == [a] + [b];
  }
}
