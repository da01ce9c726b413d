/** The export selection of the proposal tool: the option list offered per
    request, and the rows handed to the exporters (cover, then per request
    its overview and its chosen option, then closing). The user's choices
    are a parameter. */
module Export {
  import opened Util
  import opened Cells
  import opened Sorting
  import opened OptionTitles

  /** Pandas' element-wise `==` on a column: an empty cell equals nothing. */
  predicate CellEq(a: Cell, b: Cell) { !IsNull(a) && !IsNull(b) && a == b }

  /** The rows satisfying `p`, in table order. */
  function Filter(rows: seq<Row>, p: Row -> bool): seq<Row> {
    if rows == [] then []
    else (if p(rows[0]) then [rows[0]] else []) + Filter(rows[1..], p)
  }

  lemma {:induction false} FilterMembers(rows: seq<Row>, p: Row -> bool, x: Row)
    ensures x in Filter(rows, p) <==> x in rows && p(x)
    decreases |rows|
  {
    if rows != [] {
      FilterMembers(rows[1..], p, x);
      assert rows == [rows[0]] + rows[1..];
    }
  }

  predicate IsCover(r: Row) { r.reqId == Str("COVER") }

  predicate IsClosing(r: Row) { r.reqId == Str("CLOSING") }

  function CoverRows(rows: seq<Row>): seq<Row> { Filter(rows, IsCover) }

  function ClosingRows(rows: seq<Row>): seq<Row> { Filter(rows, IsClosing) }

  /** Python's `str` of a cell, as `astype(str)` writes it: an empty cell
      becomes `"None"` or `"nan"`, an integer its decimal digits. */
  function PyStr(c: Cell): string {
    match c
    case Null => "None"
    case NaN => "nan"
    case Str(s) => s
    case Int(i) => IntToString(i)
  }

  /** `astype(str)` on the slide-number and option-number cells of a row. */
  function AsText(r: Row): Row {
    r.(optNo := Str(PyStr(r.optNo)), slideNo := Str(PyStr(r.slideNo)))
  }

  /** The table after `astype(str)` on its slide-number and option-number
      columns, which the tool applies before offering options. */
  function TextColumns(rows: seq<Row>): (out: seq<Row>)
    ensures |out| == |rows|
  {
    seq(|rows|, i requires 0 <= i < |rows| => AsText(rows[i]))
  }

  /** The conversion keeps what `S` reads from a filled cell, so a digit
      option stays a digit option with the same number. */
  lemma PyStrKeepsS(c: Cell)
    requires !IsNull(c)
    ensures S(Str(PyStr(c))) == S(c)
  {
  }

  /** `df[df["요청 ID"] == rid]`. */
  function OfRequest(rows: seq<Row>, rid: Cell): seq<Row> {
    Filter(rows, (x: Row) => CellEq(x.reqId, rid))
  }

  /** The request's `OVERVIEW` slides. */
  function Overview(sub: seq<Row>): seq<Row> {
    Filter(sub, (x: Row) => x.slideNo == Str("OVERVIEW"))
  }

  /** The rows of the chosen option. */
  function WithOption(sub: seq<Row>, sel: Cell): seq<Row> {
    Filter(sub, (x: Row) => CellEq(x.optNo, sel))
  }

  /** The distinct request ids other than `COVER` and `CLOSING`, in order of
      first appearance (`unique()` keeps that order). */
  function ReqIds(rows: seq<Row>): seq<Cell> {
    if rows == [] then []
    else
      var ids := ReqIds(rows[..|rows| - 1]);
      var rid := rows[|rows| - 1].reqId;
      if rid in ids || rid == Str("COVER") || rid == Str("CLOSING") then ids else ids + [rid]
  }

  ghost predicate NoDuplicates<T>(s: seq<T>) {
    forall a, b :: 0 <= a < b < |s| ==> s[a] != s[b]
  }

  /** `ReqIds` lists every other request id of the table once, and nothing else. */
  lemma {:induction false} ReqIdsExact(rows: seq<Row>)
    ensures NoDuplicates(ReqIds(rows))
    ensures forall rid :: rid in ReqIds(rows) <==>
      rid != Str("COVER") && rid != Str("CLOSING") && exists i :: 0 <= i < |rows| && rows[i].reqId == rid
    decreases |rows|
  {
    if rows != [] {
      var init := rows[..|rows| - 1];
      ReqIdsExact(init);
      assert forall i :: 0 <= i < |init| ==> init[i] == rows[i];
      forall rid | rid in ReqIds(rows) && rid in ReqIds(init)
        ensures exists i :: 0 <= i < |rows| && rows[i].reqId == rid
      {
        var i :| 0 <= i < |init| && init[i].reqId == rid;
        assert rows[i].reqId == rid;
      }
      forall rid | rid != Str("COVER") && rid != Str("CLOSING") && (exists i :: 0 <= i < |rows| && rows[i].reqId == rid)
        ensures rid in ReqIds(rows)
      {
        var i :| 0 <= i < |rows| && rows[i].reqId == rid;
        if i < |init| { assert init[i].reqId == rid; }
      }
    }
  }

  /** The distinct digit-string option numbers of a request, in order of
      first appearance. */
  function OptionValues(sub: seq<Row>): seq<Cell> {
    if sub == [] then []
    else
      var c := OptionValues(sub[..|sub| - 1]);
      var o := sub[|sub| - 1].optNo;
      if IsDecimal(S(o)) && o !in c then c + [o] else c
  }

  /** Some row of `sub` carries option number `o`. */
  predicate HasOptNo(sub: seq<Row>, o: Cell) {
    exists i :: 0 <= i < |sub| && sub[i].optNo == o
  }

  lemma {:induction false} OptionValuesDistinct(sub: seq<Row>)
    ensures NoDuplicates(OptionValues(sub))
    decreases |sub|
  {
    if sub != [] {
      OptionValuesDistinct(sub[..|sub| - 1]);
    }
  }

  lemma HasOptNoSnoc(sub: seq<Row>, o: Cell)
    requires sub != []
    ensures HasOptNo(sub, o) <==> HasOptNo(sub[..|sub| - 1], o) || sub[|sub| - 1].optNo == o
  {
    var init := sub[..|sub| - 1];
    if HasOptNo(init, o) {
      var i :| 0 <= i < |init| && init[i].optNo == o;
      assert sub[i].optNo == o;
    }
    if HasOptNo(sub, o) && sub[|sub| - 1].optNo != o {
      var i :| 0 <= i < |sub| && sub[i].optNo == o;
      assert init[i].optNo == o;
    }
    if sub[|sub| - 1].optNo == o {
      assert sub[|sub| - 1].optNo == o;
    }
  }

  lemma {:induction false} OptionValuesMembers(sub: seq<Row>, o: Cell)
    ensures o in OptionValues(sub) <==> IsDecimal(S(o)) && HasOptNo(sub, o)
    decreases |sub|
  {
    if sub != [] {
      var init := sub[..|sub| - 1];
      var last := sub[|sub| - 1].optNo;
      var c := OptionValues(init);
      OptionValuesMembers(init, o);
      HasOptNoSnoc(sub, o);
      assert OptionValues(sub) == if IsDecimal(S(last)) && last !in c then c + [last] else c;
    }
  }

  /** The option set is the request's digit-string option numbers, each once. */
  lemma OptionValuesExact(sub: seq<Row>)
    ensures NoDuplicates(OptionValues(sub))
    ensures forall o :: o in OptionValues(sub) <==> IsDecimal(S(o)) && HasOptNo(sub, o)
  {
    OptionValuesDistinct(sub);
    forall o ensures o in OptionValues(sub) <==> IsDecimal(S(o)) && HasOptNo(sub, o) {
      OptionValuesMembers(sub, o);
    }
  }

  /** The sort key `int(x) if S(x).isdigit() else 999`. */
  function OptionKey(o: Cell): nat {
    if IsDecimal(S(o)) then DecimalValue(S(o)) else 999
  }

  function OptionKeys(c: seq<Cell>): (keys: seq<real>)
    ensures |keys| == |c| && forall i :: 0 <= i < |c| ==> keys[i] == OptionKey(c[i]) as real
  {
    seq(|c|, i requires 0 <= i < |c| => OptionKey(c[i]) as real)
  }

  /** The options offered for a request, sorted by their number. */
  function Options(sub: seq<Row>): seq<Cell> {
    var c := OptionValues(sub);
    Pick(c, StableOrder(OptionKeys(c)))
  }

  /** A sequence with the same items as a duplicate-free one is duplicate-free. */
  lemma NoDuplicatesPermuted<T>(s: seq<T>, t: seq<T>)
    requires multiset(s) == multiset(t) && NoDuplicates(t)
    ensures NoDuplicates(s)
  {
    forall a, b | 0 <= a < b < |s| ensures s[a] != s[b] {
      if s[a] == s[b] {
        assert s == s[..b] + [s[b]] + s[b + 1..];
        assert s[a] in multiset(s[..b]);
        assert multiset(t)[s[a]] >= 2;
        AtMostOnce(t, s[a]);
        assert false;
      }
    }
  }

  lemma {:induction false} AtMostOnce<T>(t: seq<T>, v: T)
    requires NoDuplicates(t)
    ensures multiset(t)[v] <= 1
    decreases |t|
  {
    if t != [] {
      assert t == [t[0]] + t[1..];
      AtMostOnce(t[1..], v);
      if t[0] == v {
        assert v !in t[1..];
      }
    }
  }

  /** The options are the request's digit-string option numbers, each once,
      in non-decreasing numeric order; equal numbers keep their order of
      appearance. */
  lemma OptionsFacts(sub: seq<Row>)
    ensures NoDuplicates(Options(sub))
    ensures forall o :: o in Options(sub) <==> IsDecimal(S(o)) && HasOptNo(sub, o)
    ensures forall a, b :: 0 <= a < b < |Options(sub)| ==> OptionKey(Options(sub)[a]) <= OptionKey(Options(sub)[b])
  {
    var c := OptionValues(sub);
    var keys := OptionKeys(c);
    var order := StableOrder(keys);
    OptionValuesExact(sub);
    StableOrderPermutes(c, keys);
    NoDuplicatesPermuted(Options(sub), c);
    forall o ensures o in Options(sub) <==> o in c {
      assert o in Options(sub) <==> o in multiset(Options(sub));
    }
    StableOrderSorted(keys, order);
  }

  /** After the conversion a request offers option `"v"` exactly when `v` is
      a digit string and one of its rows carries an option cell whose `str`
      is `v`, whether that cell held the text or the integer. */
  lemma TextOptionValues(rows: seq<Row>, rid: Cell, o: Cell)
    ensures o in OptionValues(OfRequest(TextColumns(rows), rid)) <==>
      o.Str? && IsDecimal(o.s) && exists i :: 0 <= i < |rows| && CellEq(rows[i].reqId, rid) && PyStr(rows[i].optNo) == o.s
  {
    OptionValuesMembers(OfRequest(TextColumns(rows), rid), o);
    if HasOptNo(OfRequest(TextColumns(rows), rid), o) {
      TextOptionSource(rows, rid, o);
    }
    if o.Str? && exists i :: 0 <= i < |rows| && CellEq(rows[i].reqId, rid) && PyStr(rows[i].optNo) == o.s {
      var i :| 0 <= i < |rows| && CellEq(rows[i].reqId, rid) && PyStr(rows[i].optNo) == o.s;
      TextOptionCarried(rows, rid, i);
    }
  }

  /** An option cell of the converted request comes from one of its rows. */
  lemma TextOptionSource(rows: seq<Row>, rid: Cell, o: Cell)
    requires HasOptNo(OfRequest(TextColumns(rows), rid), o)
    ensures o.Str? && exists i :: 0 <= i < |rows| && CellEq(rows[i].reqId, rid) && PyStr(rows[i].optNo) == o.s
  {
    var t := TextColumns(rows);
    var sub := OfRequest(t, rid);
    var j :| 0 <= j < |sub| && sub[j].optNo == o;
    FilterMembers(t, (x: Row) => CellEq(x.reqId, rid), sub[j]);
    var i :| 0 <= i < |t| && t[i] == sub[j];
    assert CellEq(rows[i].reqId, rid) && PyStr(rows[i].optNo) == o.s;
  }

  /** Each row of the request carries its converted option cell into it. */
  lemma TextOptionCarried(rows: seq<Row>, rid: Cell, i: nat)
    requires i < |rows| && CellEq(rows[i].reqId, rid)
    ensures HasOptNo(OfRequest(TextColumns(rows), rid), Str(PyStr(rows[i].optNo)))
  {
    var t := TextColumns(rows);
    var sub := OfRequest(t, rid);
    FilterMembers(t, (x: Row) => CellEq(x.reqId, rid), t[i]);
    var j :| 0 <= j < |sub| && sub[j] == t[i];
    assert sub[j].optNo == Str(PyStr(rows[i].optNo));
  }

  /** The rows exported for the chosen option `"v"` are the request's rows
      whose option cell has `str` equal to `v`: an integer `7` and a text
      `"7"` land in the same option. */
  lemma TextOptionRows(rows: seq<Row>, rid: Cell, v: string, i: nat)
    requires i < |rows|
    ensures AsText(rows[i]) in WithOption(OfRequest(TextColumns(rows), rid), Str(v)) <==>
      CellEq(rows[i].reqId, rid) && PyStr(rows[i].optNo) == v
  {
    var t := TextColumns(rows);
    var sub := OfRequest(t, rid);
    FilterMembers(t, (x: Row) => CellEq(x.reqId, rid), t[i]);
    FilterMembers(sub, (x: Row) => CellEq(x.optNo, Str(v)), t[i]);
  }

  /** The option the user picked by position, the first one by default. */
  function Picked(opts: seq<Cell>, rid: Cell, picks: map<Cell, nat>): Cell
    requires |opts| > 0
  {
    if rid in picks && picks[rid] < |opts| then opts[picks[rid]] else opts[0]
  }

  /** The selection made for a request; none when it offers no option. */
  function Selected(rows: seq<Row>, rid: Cell, picks: map<Cell, nat>): (sel: Option<Cell>)
    ensures sel.Some? ==> sel.value in Options(OfRequest(rows, rid))
    ensures sel.None? <==> |Options(OfRequest(rows, rid))| == 0
  {
    var opts := Options(OfRequest(rows, rid));
    if |opts| == 0 then None else Some(Picked(opts, rid, picks))
  }

  /** `sel_map`: the requests that offer options, each with its selection. */
  function Selections(rows: seq<Row>, ids: seq<Cell>, picks: map<Cell, nat>): seq<(Cell, Cell)> {
    if ids == [] then []
    else
      var front := Selections(rows, ids[..|ids| - 1], picks);
      var rid := ids[|ids| - 1];
      match Selected(rows, rid, picks)
      case None => front
      case Some(sel) => front + [(rid, sel)]
  }

  /** Per selected request: its overview rows, then its chosen option's rows. */
  function Frames(rows: seq<Row>, sels: seq<(Cell, Cell)>): seq<Row> {
    if sels == [] then []
    else
      var sub := OfRequest(rows, sels[|sels| - 1].0);
      Frames(rows, sels[..|sels| - 1]) + Overview(sub) + WithOption(sub, sels[|sels| - 1].1)
  }

  /** The rows handed to the exporters. */
  function ExportRows(rows: seq<Row>, picks: map<Cell, nat>): seq<Row> {
    CoverRows(rows) + Frames(rows, Selections(rows, ReqIds(rows), picks)) + ClosingRows(rows)
  }

  lemma SelectionsStep(rows: seq<Row>, ids: seq<Cell>, i: nat, picks: map<Cell, nat>)
    requires i < |ids|
    ensures Selections(rows, ids[..i + 1], picks) ==
      var opts := Options(OfRequest(rows, ids[i]));
      if |opts| > 0 then Selections(rows, ids[..i], picks) + [(ids[i], Picked(opts, ids[i], picks))]
      else Selections(rows, ids[..i], picks)
  {
    assert ids[..i + 1][..i] == ids[..i];
  }

  lemma FramesStep(rows: seq<Row>, sels: seq<(Cell, Cell)>, j: nat)
    requires j < |sels|
    ensures Frames(rows, sels[..j + 1]) ==
      Frames(rows, sels[..j]) + Overview(OfRequest(rows, sels[j].0)) + WithOption(OfRequest(rows, sels[j].0), sels[j].1)
  {
    assert sels[..j + 1][..j] == sels[..j];
  }

  /** The loop over the request ids that records each request's selection. */
  method SelectOptions(rows: seq<Row>, ids: seq<Cell>, picks: map<Cell, nat>) returns (sels: seq<(Cell, Cell)>)
    ensures sels == Selections(rows, ids, picks)
  {
    sels := [];
    for i := 0 to |ids|
      invariant sels == Selections(rows, ids[..i], picks)
    {
      SelectionsStep(rows, ids, i, picks);
      var opts := Options(OfRequest(rows, ids[i]));
      if |opts| > 0 {
        sels := sels + [(ids[i], Picked(opts, ids[i], picks))];
      }
    }
    assert ids[..|ids|] == ids;
  }

  /** The loop that collects the frames of the selected requests. */
  method CollectFrames(rows: seq<Row>, sels: seq<(Cell, Cell)>) returns (out: seq<Row>)
    ensures out == Frames(rows, sels)
  {
    out := [];
    for j := 0 to |sels|
      invariant out == Frames(rows, sels[..j])
    {
      FramesStep(rows, sels, j);
      var sub := OfRequest(rows, sels[j].0);
      out := out + Overview(sub);
      out := out + WithOption(sub, sels[j].1);
    }
    assert sels[..|sels|] == sels;
  }

  /** The rows handed to the exporters, assembled as the tool does: the
      slide-number and option-number columns are turned to text first. */
  method BuildExport(table: seq<Row>, picks: map<Cell, nat>) returns (out: seq<Row>)
    ensures out == ExportRows(TextColumns(table), picks)
  {
    var rows := TextColumns(table);
    var sels := SelectOptions(rows, ReqIds(rows), picks);
    var frames := CollectFrames(rows, sels);
    out := CoverRows(rows) + frames + ClosingRows(rows);
  }

  /** The first position of `v` in `ids`. */
  function Position(ids: seq<Cell>, v: Cell): (p: nat)
    requires v in ids
    ensures p < |ids| && ids[p] == v && forall j :: 0 <= j < p ==> ids[j] != v
  {
    if ids[0] == v then 0 else 1 + Position(ids[1..], v)
  }

  lemma PositionPrefix(ids: seq<Cell>, m: nat, v: Cell)
    requires m <= |ids| && v in ids[..m]
    ensures v in ids && Position(ids[..m], v) == Position(ids, v)
  {
    var q := Position(ids[..m], v);
    assert ids[q] == v;
  }

  lemma PositionOf(ids: seq<Cell>, j: nat)
    requires NoDuplicates(ids) && j < |ids|
    ensures Position(ids, ids[j]) == j
  {
  }

  /** Every row belongs to one of `ids`, and rows come in the order of `ids`. */
  ghost predicate InRequestOrder(ids: seq<Cell>, f: seq<Row>) {
    && (forall x :: x in f ==> x.reqId in ids)
    && (forall a, b :: 0 <= a < b < |f| ==> Position(ids, f[a].reqId) <= Position(ids, f[b].reqId))
  }

  lemma InRequestOrderWiden(ids: seq<Cell>, m: nat, f: seq<Row>)
    requires m <= |ids| && InRequestOrder(ids[..m], f)
    ensures InRequestOrder(ids, f)
    ensures forall x :: x in f ==> Position(ids, x.reqId) < m
  {
    forall x | x in f ensures x.reqId in ids && Position(ids, x.reqId) < m {
      PositionPrefix(ids, m, x.reqId);
    }
    forall a, b | 0 <= a < b < |f| ensures Position(ids, f[a].reqId) <= Position(ids, f[b].reqId) {
      PositionPrefix(ids, m, f[a].reqId);
      PositionPrefix(ids, m, f[b].reqId);
    }
  }

  lemma InRequestOrderAppend(ids: seq<Cell>, f0: seq<Row>, tail: seq<Row>)
    requires NoDuplicates(ids) && |ids| > 0
    requires InRequestOrder(ids[..|ids| - 1], f0)
    requires forall x :: x in tail ==> x.reqId == ids[|ids| - 1]
    ensures InRequestOrder(ids, f0 + tail)
  {
    var n := |ids|;
    InRequestOrderWiden(ids, n - 1, f0);
    PositionOf(ids, n - 1);
    var f := f0 + tail;
    forall a, b | 0 <= a < b < |f| ensures Position(ids, f[a].reqId) <= Position(ids, f[b].reqId) {
      if b < |f0| {
        assert f[a] == f0[a] && f[b] == f0[b];
      } else if a < |f0| {
        assert f[a] in f0 && f[b] in tail;
      } else {
        assert f[a] in tail && f[b] in tail;
      }
    }
  }

  /** The rows of one request's frames all carry that request's id. */
  lemma RequestFramesOwned(rows: seq<Row>, rid: Cell, sel: Cell)
    ensures forall x :: x in Overview(OfRequest(rows, rid)) + WithOption(OfRequest(rows, rid), sel) ==> x.reqId == rid
  {
    var sub := OfRequest(rows, rid);
    forall x | x in Overview(sub) + WithOption(sub, sel) ensures x.reqId == rid {
      FilterMembers(sub, (x: Row) => x.slideNo == Str("OVERVIEW"), x);
      FilterMembers(sub, (x: Row) => CellEq(x.optNo, sel), x);
      FilterMembers(rows, (x: Row) => CellEq(x.reqId, rid), x);
    }
  }

  lemma FramesSnoc(rows: seq<Row>, fs: seq<(Cell, Cell)>, p: (Cell, Cell))
    ensures Frames(rows, fs + [p]) ==
      Frames(rows, fs) + (Overview(OfRequest(rows, p.0)) + WithOption(OfRequest(rows, p.0), p.1))
  {
    assert (fs + [p])[..|fs|] == fs;
  }

  lemma SelectionsSnoc(rows: seq<Row>, ids: seq<Cell>, picks: map<Cell, nat>)
    requires ids != []
    ensures var sel := Selected(rows, ids[|ids| - 1], picks);
      Selections(rows, ids, picks) ==
        if sel.None? then Selections(rows, ids[..|ids| - 1], picks)
        else Selections(rows, ids[..|ids| - 1], picks) + [(ids[|ids| - 1], sel.value)]
  {
  }

  /** The frames list the requests' rows in request order. */
  lemma {:induction false} FramesInOrder(rows: seq<Row>, ids: seq<Cell>, picks: map<Cell, nat>)
    requires NoDuplicates(ids)
    ensures InRequestOrder(ids, Frames(rows, Selections(rows, ids, picks)))
    decreases |ids|
  {
    if ids != [] {
      var n := |ids|;
      var last := ids[n - 1];
      FramesInOrder(rows, ids[..n - 1], picks);
      var fs := Selections(rows, ids[..n - 1], picks);
      SelectionsSnoc(rows, ids, picks);
      var sel := Selected(rows, last, picks);
      if sel.None? {
        InRequestOrderWiden(ids, n - 1, Frames(rows, fs));
      } else {
        FramesSnoc(rows, fs, (last, sel.value));
        RequestFramesOwned(rows, last, sel.value);
        InRequestOrderAppend(ids, Frames(rows, fs), Overview(OfRequest(rows, last)) + WithOption(OfRequest(rows, last), sel.value));
      }
    }
  }

  /** Where a row lands in the export: cover rows first, then the requests
      in the order of their first appearance, closing rows last. */
  function Rank(rows: seq<Row>, x: Row): nat {
    var ids := ReqIds(rows);
    if IsCover(x) then 0
    else if x.reqId in ids then 1 + Position(ids, x.reqId)
    else |ids| + 1
  }

  ghost predicate RankSorted(rows: seq<Row>, s: seq<Row>) {
    forall a, b :: 0 <= a < b < |s| ==> Rank(rows, s[a]) <= Rank(rows, s[b])
  }

  lemma RankSortedConcat(rows: seq<Row>, c: seq<Row>, f: seq<Row>, l: seq<Row>, n: nat)
    requires forall x :: x in c ==> Rank(rows, x) == 0
    requires forall x :: x in f ==> 1 <= Rank(rows, x) <= n
    requires forall x :: x in l ==> Rank(rows, x) == n + 1
    requires RankSorted(rows, f)
    ensures RankSorted(rows, c + f + l)
  {
    var out := c + f + l;
    forall a, b | 0 <= a < b < |out| ensures Rank(rows, out[a]) <= Rank(rows, out[b]) {
      if b < |c| {
        assert out[a] in c && out[b] in c;
      } else if b < |c| + |f| {
        if a < |c| {
          assert out[a] in c && out[b] in f;
        } else {
          assert out[a] == f[a - |c|] && out[b] == f[b - |c|];
        }
      } else {
        assert out[b] in l;
        if a < |c| { assert out[a] in c; }
        else if a < |c| + |f| { assert out[a] in f; }
        else { assert out[a] in l; }
      }
    }
  }

  /** The exported rows come in cover, request, closing order. */
  lemma ExportOrdered(rows: seq<Row>, picks: map<Cell, nat>)
    ensures var out := ExportRows(rows, picks);
      forall a, b :: 0 <= a < b < |out| ==> Rank(rows, out[a]) <= Rank(rows, out[b])
  {
    var ids := ReqIds(rows);
    ReqIdsExact(rows);
    FramesInOrder(rows, ids, picks);
    var f := Frames(rows, Selections(rows, ids, picks));
    forall x | x in CoverRows(rows) ensures Rank(rows, x) == 0 { FilterMembers(rows, IsCover, x); }
    forall x | x in ClosingRows(rows) ensures Rank(rows, x) == |ids| + 1 { FilterMembers(rows, IsClosing, x); }
    forall x | x in f ensures 1 <= Rank(rows, x) <= |ids| {
      assert x.reqId in ids;
    }
    forall a, b | 0 <= a < b < |f| ensures Rank(rows, f[a]) <= Rank(rows, f[b]) {
      assert f[a] in f && f[b] in f;
    }
    RankSortedConcat(rows, CoverRows(rows), f, ClosingRows(rows), |ids|);
  }

  /** The frames of the first `m` selections open the frames of all of them. */
  lemma {:induction false} FramesPrefix(rows: seq<Row>, sels: seq<(Cell, Cell)>, m: nat)
    requires m <= |sels|
    ensures |Frames(rows, sels[..m])| <= |Frames(rows, sels)|
    ensures Frames(rows, sels)[..|Frames(rows, sels[..m])|] == Frames(rows, sels[..m])
    decreases |sels| - m
  {
    if m < |sels| {
      FramesPrefix(rows, sels, m + 1);
      FramesStep(rows, sels, m);
      var short := Frames(rows, sels[..m]);
      var long := Frames(rows, sels[..m + 1]);
      assert long[..|short|] == short;
      assert Frames(rows, sels)[..|long|][..|short|] == short;
    } else {
      assert sels[..m] == sels;
    }
  }

  /** Inside the export, the block of the `j`-th selected request follows
      the cover rows and the earlier requests' blocks, and is its overview
      rows followed by the rows of the option chosen for it. */
  lemma {:induction false} RequestBlock(rows: seq<Row>, picks: map<Cell, nat>, sels: seq<(Cell, Cell)>, j: nat)
    requires sels == Selections(rows, ReqIds(rows), picks) && j < |sels|
    ensures Selected(rows, sels[j].0, picks) == Some(sels[j].1)
    ensures |CoverRows(rows)| + |Frames(rows, sels[..j + 1])| <= |ExportRows(rows, picks)|
    ensures ExportRows(rows, picks)[..|CoverRows(rows)| + |Frames(rows, sels[..j + 1])|]
      == CoverRows(rows) + Frames(rows, sels[..j]) + Overview(OfRequest(rows, sels[j].0)) + WithOption(OfRequest(rows, sels[j].0), sels[j].1)
  {
    SelectionsMembers(rows, ReqIds(rows), picks, sels[j]);
    FramesBlock(rows, sels, j);
    ExportSplit(rows, picks, sels);
    PrefixThrough(ExportRows(rows, picks), CoverRows(rows), Frames(rows, sels), ClosingRows(rows), Frames(rows, sels[..j + 1]),
      Frames(rows, sels[..j]), Overview(OfRequest(rows, sels[j].0)), WithOption(OfRequest(rows, sels[j].0), sels[j].1));
  }

  /** The frames up to the `j`-th selection end with its block. */
  lemma FramesBlock(rows: seq<Row>, sels: seq<(Cell, Cell)>, j: nat)
    requires j < |sels|
    ensures |Frames(rows, sels[..j + 1])| <= |Frames(rows, sels)|
    ensures Frames(rows, sels)[..|Frames(rows, sels[..j + 1])|] == Frames(rows, sels[..j + 1])
    ensures Frames(rows, sels[..j + 1]) ==
      Frames(rows, sels[..j]) + Overview(OfRequest(rows, sels[j].0)) + WithOption(OfRequest(rows, sels[j].0), sels[j].1)
  {
    FramesPrefix(rows, sels, j + 1);
    FramesStep(rows, sels, j);
  }

  /** The export is the cover rows, the frames of the selections, then the closing rows. */
  lemma ExportSplit(rows: seq<Row>, picks: map<Cell, nat>, sels: seq<(Cell, Cell)>)
    requires sels == Selections(rows, ReqIds(rows), picks)
    ensures ExportRows(rows, picks) == CoverRows(rows) + Frames(rows, sels) + ClosingRows(rows)
  {
  }

  /** The part of `out = c + f + l` up to the end of a prefix `x + y + z` of `f`. */
  lemma PrefixThrough<T>(out: seq<T>, c: seq<T>, f: seq<T>, l: seq<T>, upto: seq<T>, x: seq<T>, y: seq<T>, z: seq<T>)
    requires out == c + f + l
    requires |upto| <= |f| && f[..|upto|] == upto && upto == x + y + z
    ensures |c| + |upto| <= |out|
    ensures out[..|c| + |upto|] == c + x + y + z
  {
    assert out[..|c| + |upto|] == c + upto;
  }

  /** Row `x` belongs to the frames of the selection `p`: it is one of the
      request's rows, and an overview slide or a row of the chosen option. */
  predicate FrameOf(x: Row, p: (Cell, Cell)) {
    CellEq(x.reqId, p.0) && (x.slideNo == Str("OVERVIEW") || CellEq(x.optNo, p.1))
  }

  lemma {:induction false} FramesMembers(rows: seq<Row>, sels: seq<(Cell, Cell)>, x: Row)
    ensures x in Frames(rows, sels) <==> x in rows && exists p :: p in sels && FrameOf(x, p)
    decreases |sels|
  {
    if sels != [] {
      var init := sels[..|sels| - 1];
      var last := sels[|sels| - 1];
      assert sels == init + [last];
      FramesSnoc(rows, init, last);
      FramesMembers(rows, init, x);
      var sub := OfRequest(rows, last.0);
      FilterMembers(sub, (x: Row) => x.slideNo == Str("OVERVIEW"), x);
      FilterMembers(sub, (x: Row) => CellEq(x.optNo, last.1), x);
      FilterMembers(rows, (x: Row) => CellEq(x.reqId, last.0), x);
      assert x in Overview(sub) + WithOption(sub, last.1) <==> x in rows && FrameOf(x, last);
      if exists p :: p in sels && FrameOf(x, p) {
        var p :| p in sels && FrameOf(x, p);
        if p != last { assert p in init; }
      }
    }
  }

  lemma {:induction false} SelectionsMembers(rows: seq<Row>, ids: seq<Cell>, picks: map<Cell, nat>, p: (Cell, Cell))
    ensures p in Selections(rows, ids, picks) <==> p.0 in ids && Selected(rows, p.0, picks) == Some(p.1)
    decreases |ids|
  {
    if ids != [] {
      var init := ids[..|ids| - 1];
      var last := ids[|ids| - 1];
      assert ids == init + [last];
      SelectionsMembers(rows, init, picks, p);
      SelectionsSnoc(rows, ids, picks);
      SnocMember(Selections(rows, init, picks), init, last, Selected(rows, last, picks),
        Selected(rows, p.0, picks), p, Selections(rows, ids, picks));
    }
  }

  /** One more request id adds its selection, if it has one, to the pairs. */
  lemma SnocMember(front: seq<(Cell, Cell)>, init: seq<Cell>, last: Cell, sel: Option<Cell>,
                   selP: Option<Cell>, p: (Cell, Cell), result: seq<(Cell, Cell)>)
    requires p in front <==> p.0 in init && selP == Some(p.1)
    requires result == if sel.None? then front else front + [(last, sel.value)]
    requires p.0 == last ==> selP == sel
    ensures p in result <==> p.0 in init + [last] && selP == Some(p.1)
  {
  }

  /** The rows the export keeps. */
  predicate Exported(rows: seq<Row>, picks: map<Cell, nat>, x: Row) {
    || IsCover(x)
    || IsClosing(x)
    || (&& !IsNull(x.reqId)
        && Selected(rows, x.reqId, picks).Some?
        && (x.slideNo == Str("OVERVIEW") || CellEq(x.optNo, Selected(rows, x.reqId, picks).value)))
  }

  /** A row is exported exactly when it is a cover or closing row, or an
      overview slide or chosen-option row of a request that offers options. */
  lemma ExportMembers(rows: seq<Row>, picks: map<Cell, nat>, x: Row)
    ensures x in ExportRows(rows, picks) <==> x in rows && Exported(rows, picks, x)
  {
    var ids := ReqIds(rows);
    var sels := Selections(rows, ids, picks);
    FilterMembers(rows, IsCover, x);
    FilterMembers(rows, IsClosing, x);
    FramesMembers(rows, sels, x);
    ReqIdsExact(rows);
    if x in Frames(rows, sels) {
      var p :| p in sels && FrameOf(x, p);
      SelectionsMembers(rows, ids, picks, p);
    }
    if x in rows && !IsCover(x) && !IsClosing(x) && !IsNull(x.reqId) && Selected(rows, x.reqId, picks).Some? &&
      (x.slideNo == Str("OVERVIEW") || CellEq(x.optNo, Selected(rows, x.reqId, picks).value))
    {
      var p := (x.reqId, Selected(rows, x.reqId, picks).value);
      var i :| 0 <= i < |rows| && rows[i] == x;
      assert x.reqId in ids;
      SelectionsMembers(rows, ids, picks, p);
      assert FrameOf(x, p);
    }
  }
}
