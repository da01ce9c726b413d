/** The per-option headline ("big title") of the proposal table. Rows are
    grouped by (request id, option number); every group whose option number
    is a digit string gets one title, chosen by a fixed priority, written to
    all of its rows. */
module OptionTitles {
  import opened Util
  import opened Cells

  /** One table row: the columns the titles depend on, and the rest. */
  datatype Row = Row(reqId: Cell, optNo: Cell, slideNo: Cell, title: Cell, bigTitle: Cell, rest: seq<Cell>)

  /** The table; `hasBigTitle` says whether the big-title column exists. */
  datatype Table = Table(hasBigTitle: bool, rows: seq<Row>)

  datatype GroupKey = GroupKey(reqId: Cell, optNo: Cell)

  function KeyOf(r: Row): GroupKey { GroupKey(r.reqId, r.optNo) }

  /** Grouping leaves out rows with an empty key cell. */
  predicate Grouped(r: Row) { !IsNull(r.reqId) && !IsNull(r.optNo) }

  /** The groups that get a title: option number a digit string. */
  predicate Titled(k: GroupKey) { !IsNull(k.reqId) && !IsNull(k.optNo) && IsDecimal(S(k.optNo)) }

  /** The rows with the big-title column present, added as `""` if missing. */
  function WithColumn(t: Table): (rows: seq<Row>)
    ensures |rows| == |t.rows|
  {
    if t.hasBigTitle then t.rows
    else seq(|t.rows|, i requires 0 <= i < |t.rows| => t.rows[i].(bigTitle := Str("")))
  }

  /** The rows of group `k`, in row order. */
  function Group(rows: seq<Row>, k: GroupKey): seq<Row> {
    if rows == [] then []
    else (if KeyOf(rows[0]) == k then [rows[0]] else []) + Group(rows[1..], k)
  }

  lemma {:induction false} GroupMembers(rows: seq<Row>, k: GroupKey, x: Row)
    requires x in Group(rows, k)
    ensures x in rows && KeyOf(x) == k
    decreases |rows|
  {
    if x != rows[0] || KeyOf(rows[0]) != k {
      GroupMembers(rows[1..], k, x);
    }
  }

  lemma {:induction false} GroupNonEmpty(rows: seq<Row>, i: nat)
    requires i < |rows|
    ensures |Group(rows, KeyOf(rows[i]))| > 0
    decreases i
  {
    if i > 0 && KeyOf(rows[0]) != KeyOf(rows[i]) {
      GroupNonEmpty(rows[1..], i - 1);
    }
  }

  /** The first non-empty big-title cell of a group. */
  function FirstNonNullBig(g: seq<Row>): Option<Cell> {
    if g == [] then None
    else if !IsNull(g[0].bigTitle) then Some(g[0].bigTitle)
    else FirstNonNullBig(g[1..])
  }

  /** The title of the group's first `META` row, `""` if there is none. */
  function MetaTitle(g: seq<Row>): string {
    if g == [] then ""
    else if g[0].slideNo == Str("META") then S(g[0].title)
    else MetaTitle(g[1..])
  }

  predicate NumberedSlide(r: Row) { IsDecimal(S(r.slideNo)) }

  function SlideNumber(r: Row): nat
    requires NumberedSlide(r)
  {
    DecimalValue(S(r.slideNo))
  }

  /** The first position of the least non-negative value of `v`; negative
      values stand for rows that take no part. */
  function FirstLeast(v: seq<int>): (p: Option<nat>)
    ensures p.Some? ==> p.value < |v| && v[p.value] >= 0
  {
    if v == [] then None
    else
      var p := FirstLeast(v[..|v| - 1]);
      var x := v[|v| - 1];
      if x >= 0 && (p.None? || x < v[p.value]) then Some(|v| - 1) else p
  }

  lemma {:induction false} FirstLeastNone(v: seq<int>)
    ensures FirstLeast(v).None? <==> forall j :: 0 <= j < |v| ==> v[j] < 0
  {
    if v != [] {
      var init := v[..|v| - 1];
      FirstLeastNone(init);
      assert forall j :: 0 <= j < |v| - 1 ==> v[j] == init[j];
    }
  }

  lemma {:induction false} FirstLeastLeast(v: seq<int>)
    ensures FirstLeast(v).Some? ==> forall j :: 0 <= j < |v| && v[j] >= 0 ==>
      && v[FirstLeast(v).value] <= v[j]
      && (j < FirstLeast(v).value ==> v[FirstLeast(v).value] < v[j])
  {
    if v != [] {
      var init := v[..|v| - 1];
      FirstLeastLeast(init);
      FirstLeastNone(init);
      assert forall j :: 0 <= j < |v| - 1 ==> v[j] == init[j];
    }
  }

  /** The slide number of each row, `-1` where it is not digits. */
  function SlideKeys(g: seq<Row>): (v: seq<int>)
    ensures |v| == |g|
    ensures forall j :: 0 <= j < |g| ==> v[j] == if NumberedSlide(g[j]) then SlideNumber(g[j]) else -1
  {
    seq(|g|, j requires 0 <= j < |g| => if NumberedSlide(g[j]) then SlideNumber(g[j]) else -1)
  }

  /** The position of the lowest-numbered slide, the first one of equals. */
  function FirstSlide(g: seq<Row>): (p: Option<nat>)
    ensures p.Some? ==> p.value < |g| && NumberedSlide(g[p.value])
  {
    FirstLeast(SlideKeys(g))
  }

  /** Slide `p` of `g` is numbered no higher than any other, and lower than
      every one before it. */
  ghost predicate LeastSlide(g: seq<Row>, p: nat)
    requires p < |g| && NumberedSlide(g[p])
  {
    forall j :: 0 <= j < |g| && NumberedSlide(g[j]) ==>
      && SlideNumber(g[p]) <= SlideNumber(g[j])
      && (j < p ==> SlideNumber(g[p]) < SlideNumber(g[j]))
  }

  /** `FirstSlide` finds nothing exactly when no slide is numbered. */
  lemma FirstSlideNone(g: seq<Row>)
    ensures FirstSlide(g).None? <==> forall j :: 0 <= j < |g| ==> !NumberedSlide(g[j])
  {
    FirstLeastNone(SlideKeys(g));
  }

  /** What `FirstSlide` finds is the least-numbered slide, the first of
      equals. */
  lemma FirstSlideLeast(g: seq<Row>)
    ensures FirstSlide(g).Some? ==> LeastSlide(g, FirstSlide(g).value)
  {
    var v := SlideKeys(g);
    FirstLeastLeast(v);
    if FirstSlide(g).Some? {
      var p := FirstSlide(g).value;
      forall j | 0 <= j < |g| && NumberedSlide(g[j])
        ensures SlideNumber(g[p]) <= SlideNumber(g[j])
        ensures j < p ==> SlideNumber(g[p]) < SlideNumber(g[j])
      {
        assert v[j] >= 0;
      }
    }
  }

  /** The title of the lowest-numbered slide, `""` if there is none. */
  function SlideTitle(g: seq<Row>): string {
    match FirstSlide(g)
    case None => ""
    case Some(p) => S(g[p].title)
  }

  /** The title a group gets: its existing big title if that is non-empty,
      else the `META` row's title, else the lowest-numbered slide's title,
      else `옵션 <n>`. A group whose big-title cells are all empty fails,
      as indexing the empty list of existing titles does. */
  function BigTitle(g: seq<Row>, opt: Cell): (r: Result<string, string>)
    ensures r.Failure? <==> FirstNonNullBig(g).None?
    ensures r.Success? ==> r.value != ""
  {
    match FirstNonNullBig(g)
    case None => Failure("list index out of range")
    case Some(c) =>
      if S(c) != "" then Success(S(c))
      else if MetaTitle(g) != "" then Success(MetaTitle(g))
      else if SlideTitle(g) != "" then Success(SlideTitle(g))
      else Success("옵션 " + S(opt))
  }

  /** The new value of row `r` of `rows`. */
  function Retitled(rows: seq<Row>, r: Row): Row {
    var k := KeyOf(r);
    if Titled(k) && BigTitle(Group(rows, k), k.optNo).Success?
    then r.(bigTitle := Str(BigTitle(Group(rows, k), k.optNo).value))
    else r
  }

  /** Some titled group has no existing big-title cell. */
  predicate Fails(rows: seq<Row>) {
    exists i :: 0 <= i < |rows| && Titled(KeyOf(rows[i])) && BigTitle(Group(rows, KeyOf(rows[i])), rows[i].optNo).Failure?
  }

  /** What `compute_option_big_titles` returns. */
  function OptionBigTitles(t: Table): Result<Table, string> {
    var rows := WithColumn(t);
    if Fails(rows) then Failure("list index out of range")
    else Success(Table(true, seq(|rows|, i requires 0 <= i < |rows| => Retitled(rows, rows[i]))))
  }

  /** The distinct keys of the grouped rows, in order of first appearance. */
  function GroupKeys(rows: seq<Row>): seq<GroupKey> {
    if rows == [] then []
    else
      var ks := GroupKeys(rows[..|rows| - 1]);
      var r := rows[|rows| - 1];
      if Grouped(r) && KeyOf(r) !in ks then ks + [KeyOf(r)] else ks
  }

  /** `GroupKeys` holds the key of every grouped row and nothing else. */
  lemma {:induction false} GroupKeysExact(rows: seq<Row>, k: GroupKey)
    ensures k in GroupKeys(rows) <==> exists i :: 0 <= i < |rows| && Grouped(rows[i]) && KeyOf(rows[i]) == k
    decreases |rows|
  {
    if rows != [] {
      var init := rows[..|rows| - 1];
      GroupKeysExact(init, k);
      assert forall i :: 0 <= i < |init| ==> init[i] == rows[i];
      if k in GroupKeys(rows) && k in GroupKeys(init) {
        var i :| 0 <= i < |init| && Grouped(init[i]) && KeyOf(init[i]) == k;
        assert rows[i] == init[i];
      }
    }
  }

  /** Writes `big` to the big-title cell of every row of group `k`. */
  method WriteGroup(rows: seq<Row>, k: GroupKey, big: string) returns (rows': seq<Row>)
    ensures |rows'| == |rows|
    ensures forall i :: 0 <= i < |rows| ==>
      rows'[i] == if KeyOf(rows[i]) == k then rows[i].(bigTitle := Str(big)) else rows[i]
  {
    rows' := rows;
    for j := 0 to |rows|
      invariant |rows'| == |rows|
      invariant forall i :: 0 <= i < j ==>
        rows'[i] == if KeyOf(rows[i]) == k then rows[i].(bigTitle := Str(big)) else rows[i]
      invariant forall i :: j <= i < |rows| ==> rows'[i] == rows[i]
    {
      if KeyOf(rows'[j]) == k {
        rows' := rows'[j := rows'[j].(bigTitle := Str(big))];
      }
    }
  }

  /** After the groups `done` were handled, their rows carry their titles
      and every other row is as it was. */
  ghost predicate Written(orig: seq<Row>, rows: seq<Row>, done: seq<GroupKey>) {
    && |rows| == |orig|
    && forall i :: 0 <= i < |orig| ==>
      rows[i] == if KeyOf(orig[i]) in done then Retitled(orig, orig[i]) else orig[i]
  }

  /** None of the titled groups in `done` failed. */
  ghost predicate Checked(orig: seq<Row>, done: seq<GroupKey>) {
    forall k :: k in done && Titled(k) ==> BigTitle(Group(orig, k), k.optNo).Success?
  }

  /** A titled group of the table whose title is found. */
  lemma WriteStep(orig: seq<Row>, before: seq<Row>, rows: seq<Row>, done: seq<GroupKey>, k: GroupKey, big: string)
    requires Written(orig, before, done) && Checked(orig, done)
    requires k in GroupKeys(orig) && IsDecimal(S(k.optNo)) && BigTitle(Group(orig, k), k.optNo) == Success(big)
    requires |rows| == |before|
    requires forall i :: 0 <= i < |before| ==>
      rows[i] == if KeyOf(before[i]) == k then before[i].(bigTitle := Str(big)) else before[i]
    ensures Written(orig, rows, done + [k]) && Checked(orig, done + [k])
  {
    GroupKeysExact(orig, k);
    var w :| 0 <= w < |orig| && Grouped(orig[w]) && KeyOf(orig[w]) == k;
    assert Titled(k);
    forall i | 0 <= i < |orig|
      ensures rows[i] == if KeyOf(orig[i]) in done + [k] then Retitled(orig, orig[i]) else orig[i]
    {
      assert KeyOf(before[i]) == KeyOf(orig[i]);
    }
  }

  /** A group whose option number is not a digit string is skipped. */
  lemma SkipStep(orig: seq<Row>, rows: seq<Row>, done: seq<GroupKey>, k: GroupKey)
    requires Written(orig, rows, done) && Checked(orig, done) && !IsDecimal(S(k.optNo))
    ensures Written(orig, rows, done + [k]) && Checked(orig, done + [k])
  {
    forall i | 0 <= i < |orig|
      ensures rows[i] == if KeyOf(orig[i]) in done + [k] then Retitled(orig, orig[i]) else orig[i]
    {
    }
  }

  /** A titled group of the table without a title makes the call fail. */
  lemma FailStep(orig: seq<Row>, k: GroupKey)
    requires k in GroupKeys(orig) && IsDecimal(S(k.optNo)) && BigTitle(Group(orig, k), k.optNo).Failure?
    ensures Fails(orig)
  {
    GroupKeysExact(orig, k);
    var i :| 0 <= i < |orig| && Grouped(orig[i]) && KeyOf(orig[i]) == k;
    assert Titled(KeyOf(orig[i]));
  }

  /** With every group checked, no titled group fails. */
  lemma FinishChecked(orig: seq<Row>)
    requires Checked(orig, GroupKeys(orig))
    ensures !Fails(orig)
  {
    forall i | 0 <= i < |orig| && Titled(KeyOf(orig[i]))
      ensures BigTitle(Group(orig, KeyOf(orig[i])), orig[i].optNo).Success?
    {
      GroupKeysExact(orig, KeyOf(orig[i]));
    }
  }

  /** Once every group is handled, each row is its retitled self; a row
      the loop left alone is one that needs no new title. */
  lemma RowFinished(orig: seq<Row>, rows: seq<Row>, i: nat)
    requires Written(orig, rows, GroupKeys(orig)) && i < |orig|
    ensures rows[i] == Retitled(orig, orig[i])
  {
    GroupKeysExact(orig, KeyOf(orig[i]));
  }

  /** With every group handled, the rows are the retitled table. */
  lemma FinishWritten(orig: seq<Row>, rows: seq<Row>)
    requires Written(orig, rows, GroupKeys(orig))
    ensures rows == seq(|orig|, i requires 0 <= i < |orig| => Retitled(orig, orig[i]))
  {
    forall i | 0 <= i < |orig|
      ensures rows[i] == Retitled(orig, orig[i])
    {
      RowFinished(orig, rows, i);
    }
  }

  /** `compute_option_big_titles`: on a copy of the table (with the column
      added if missing), each group whose option number is a digit string
      gets its title written to all of its rows. */
  method ComputeOptionBigTitles(t: Table) returns (r: Result<Table, string>)
    ensures r == OptionBigTitles(t)
  {
    var orig := WithColumn(t);
    var rows := orig;
    var keys := GroupKeys(orig);
    for gi := 0 to |keys|
      invariant Written(orig, rows, keys[..gi]) && Checked(orig, keys[..gi])
    {
      var k := keys[gi];
      assert keys[..gi + 1] == keys[..gi] + [k];
      if IsDecimal(S(k.optNo)) {
        var big := BigTitle(Group(orig, k), k.optNo);
        if big.Failure? {
          FailStep(orig, k);
          return Failure("list index out of range");
        }
        var before := rows;
        rows := WriteGroup(rows, k, big.value);
        WriteStep(orig, before, rows, keys[..gi], k, big.value);
      } else {
        SkipStep(orig, rows, keys[..gi], k);
      }
    }
    assert keys[..|keys|] == keys;
    FinishChecked(orig);
    FinishWritten(orig, rows);
    r := Success(Table(true, rows));
  }

  /** Only the big-title cell changes, and only in the titled groups; the
      row count and order are kept. */
  lemma OptionBigTitlesShape(t: Table, i: nat)
    requires OptionBigTitles(t).Success? && i < |t.rows|
    ensures |OptionBigTitles(t).value.rows| == |t.rows|
    ensures OptionBigTitles(t).value.hasBigTitle
    ensures OptionBigTitles(t).value.rows[i].(bigTitle := Null) == t.rows[i].(bigTitle := Null)
    ensures !Titled(KeyOf(t.rows[i])) ==>
      OptionBigTitles(t).value.rows[i].bigTitle == (if t.hasBigTitle then t.rows[i].bigTitle else Str(""))
  {
  }

  lemma FirstNonNullOfFilled(g: seq<Row>, c: Cell)
    requires |g| > 0 && !IsNull(c)
    requires forall x :: x in g ==> x.bigTitle == c
    ensures FirstNonNullBig(g) == Some(c)
  {
    assert g[0] in g;
  }

  lemma FirstNonNullSome(g: seq<Row>, x: Row)
    requires x in g && !IsNull(x.bigTitle)
    ensures FirstNonNullBig(g).Some?
    decreases |g|
  {
    if IsNull(g[0].bigTitle) {
      FirstNonNullSome(g[1..], x);
    }
  }

  /** Some titled group has no filled big-title cell. */
  predicate MissingTitle(rows: seq<Row>) {
    exists i :: 0 <= i < |rows| && Titled(KeyOf(rows[i])) && FirstNonNullBig(Group(rows, KeyOf(rows[i]))).None?
  }

  /** The computation fails exactly when the column exists and some titled
      group has no filled big-title cell; a table without the column never
      fails, since the added `""` cells count as filled. */
  lemma OptionBigTitlesFails(t: Table)
    ensures OptionBigTitles(t).Failure? <==>
      t.hasBigTitle && MissingTitle(t.rows)
  {
    var rows := WithColumn(t);
    if !t.hasBigTitle && Fails(rows) {
      var i :| 0 <= i < |rows| && Titled(KeyOf(rows[i])) && BigTitle(Group(rows, KeyOf(rows[i])), rows[i].optNo).Failure?;
      GroupNonEmpty(rows, i);
      var g := Group(rows, KeyOf(rows[i]));
      GroupMembers(rows, KeyOf(rows[i]), g[0]);
      FirstNonNullSome(g, g[0]);
    }
  }

  /** Every row of a titled group gets the same, non-empty title. */
  lemma SameTitleInGroup(t: Table, i: nat, j: nat)
    requires OptionBigTitles(t).Success? && i < |t.rows| && j < |t.rows|
    requires KeyOf(t.rows[i]) == KeyOf(t.rows[j]) && Titled(KeyOf(t.rows[i]))
    ensures OptionBigTitles(t).value.rows[i].bigTitle == OptionBigTitles(t).value.rows[j].bigTitle
    ensures OptionBigTitles(t).value.rows[i].bigTitle.Str?
    ensures OptionBigTitles(t).value.rows[i].bigTitle.s != ""
  {
  }

  /** A group whose first filled big-title cell is non-empty keeps it. */
  lemma ExistingTitleKept(t: Table, i: nat, c: Cell)
    requires OptionBigTitles(t).Success? && i < |t.rows| && Titled(KeyOf(t.rows[i]))
    requires FirstNonNullBig(Group(WithColumn(t), KeyOf(t.rows[i]))) == Some(c) && S(c) != ""
    ensures OptionBigTitles(t).value.rows[i].bigTitle == Str(S(c))
  {
  }

  /** A group whose first filled big-title cell is empty takes the title of
      its `META` row, when that is non-empty. */
  lemma MetaTitleUsed(t: Table, i: nat, c: Cell)
    requires OptionBigTitles(t).Success? && i < |t.rows| && Titled(KeyOf(t.rows[i]))
    requires FirstNonNullBig(Group(WithColumn(t), KeyOf(t.rows[i]))) == Some(c) && S(c) == ""
    requires MetaTitle(Group(WithColumn(t), KeyOf(t.rows[i]))) != ""
    ensures OptionBigTitles(t).value.rows[i].bigTitle == Str(MetaTitle(Group(WithColumn(t), KeyOf(t.rows[i]))))
  {
  }

  /** Without an existing or `META` title, a group takes the title of its
      lowest-numbered slide, when that is non-empty. */
  lemma SlideTitleUsed(t: Table, i: nat, c: Cell, p: nat)
    requires OptionBigTitles(t).Success? && i < |t.rows| && Titled(KeyOf(t.rows[i]))
    requires FirstNonNullBig(Group(WithColumn(t), KeyOf(t.rows[i]))) == Some(c) && S(c) == ""
    requires MetaTitle(Group(WithColumn(t), KeyOf(t.rows[i]))) == ""
    requires FirstSlide(Group(WithColumn(t), KeyOf(t.rows[i]))) == Some(p)
    requires S(Group(WithColumn(t), KeyOf(t.rows[i]))[p].title) != ""
    ensures OptionBigTitles(t).value.rows[i].bigTitle == Str(S(Group(WithColumn(t), KeyOf(t.rows[i]))[p].title))
  {
  }

  /** A group with no existing, `META` or slide title is named `옵션 <n>`
      after its option number. */
  lemma DefaultTitleUsed(t: Table, i: nat, c: Cell)
    requires OptionBigTitles(t).Success? && i < |t.rows| && Titled(KeyOf(t.rows[i]))
    requires FirstNonNullBig(Group(WithColumn(t), KeyOf(t.rows[i]))) == Some(c) && S(c) == ""
    requires MetaTitle(Group(WithColumn(t), KeyOf(t.rows[i]))) == ""
    requires SlideTitle(Group(WithColumn(t), KeyOf(t.rows[i]))) == ""
    ensures OptionBigTitles(t).value.rows[i].bigTitle == Str("옵션 " + S(t.rows[i].optNo))
  {
  }

  /** Computing the titles a second time changes nothing. */
  lemma OptionBigTitlesIdempotent(t: Table)
    requires OptionBigTitles(t).Success?
    ensures OptionBigTitles(OptionBigTitles(t).value) == OptionBigTitles(t)
  {
    var rows := WithColumn(t);
    var out := OptionBigTitles(t).value.rows;
    assert WithColumn(OptionBigTitles(t).value) == out;
    forall i | 0 <= i < |out| && Titled(KeyOf(out[i]))
      ensures BigTitle(Group(out, KeyOf(out[i])), out[i].optNo) == Success(out[i].bigTitle.s)
    {
      var k := KeyOf(out[i]);
      assert KeyOf(rows[i]) == k;
      SameTitleInGroup(t, i, i);
      var c := out[i].bigTitle;
      forall x | x in Group(out, k) ensures x.bigTitle == c {
        GroupMembers(out, k, x);
        var j :| 0 <= j < |out| && out[j] == x;
        assert KeyOf(rows[j]) == k;
        SameTitleInGroup(t, i, j);
      }
      GroupNonEmpty(out, i);
      FirstNonNullOfFilled(Group(out, k), c);
    }
    assert !Fails(out);
    assert seq(|out|, i requires 0 <= i < |out| => Retitled(out, out[i])) == out;
  }

  /** `MetaTitle` is the title of the first `META` row, if there is one. */
  lemma {:induction false} MetaTitleIsFirstMeta(g: seq<Row>)
    ensures (forall j :: 0 <= j < |g| ==> g[j].slideNo != Str("META")) ==> MetaTitle(g) == ""
    ensures forall j :: (0 <= j < |g| && g[j].slideNo == Str("META") &&
      (forall m :: 0 <= m < j ==> g[m].slideNo != Str("META"))) ==> MetaTitle(g) == S(g[j].title)
    decreases |g|
  {
    if g != [] {
      MetaTitleIsFirstMeta(g[1..]);
      assert forall j :: 1 <= j < |g| ==> g[1..][j - 1] == g[j];
    }
  }
}
