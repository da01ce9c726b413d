/** Spreadsheet cells as the proposal tool reads them, and the text helpers
    it applies to them: `S` (a cell as text), Python's `str.strip`,
    `str.split` and `str.replace` on one character, and `parse_url_list`. */
module Cells {
  import opened Util

  /** A cell: empty (`None`), a float NaN (pandas' empty cell), text or an
      integer. */
  datatype Cell = Null | NaN | Str(s: string) | Int(i: int)

  predicate IsNull(c: Cell) { c.Null? || c.NaN? }

  /** `S`: empty cells become the empty string, anything else its `str`. A
      cell passes `S(c).isdigit()` exactly when it is a digit string or a
      non-negative integer, whose digits give back its value. */
  function S(c: Cell): (s: string)
    ensures IsNull(c) ==> s == ""
    ensures c.Str? ==> s == c.s
    ensures c.Int? ==> (IsDecimal(s) <==> c.i >= 0)
    ensures c.Int? && c.i >= 0 ==> DecimalValue(s) == c.i
  {
    match c
    case Null => ""
    case NaN => ""
    case Str(t) => t
    case Int(i) =>
      if i >= 0 then DecimalValueOfNatToString(i); IntToString(i)
      else
        assert IntToString(i)[0] == '-';
        IntToString(i)
  }

  /** The characters Python's `str.isspace` accepts. */
  predicate IsSpace(c: char) {
    var n := c as int;
    || n == 0x20 || 0x09 <= n <= 0x0D || 0x1C <= n <= 0x1F || n == 0x85 || n == 0xA0
    || n == 0x1680 || 0x2000 <= n <= 0x200A || n == 0x2028 || n == 0x2029
    || n == 0x202F || n == 0x205F || n == 0x3000
  }

  /** `s.lstrip()`: drop the leading whitespace. */
  function LStrip(s: string): string {
    if |s| > 0 && IsSpace(s[0]) then LStrip(s[1..]) else s
  }

  /** `s.rstrip()`: drop the trailing whitespace. */
  function RStrip(s: string): string {
    if |s| > 0 && IsSpace(s[|s| - 1]) then RStrip(s[..|s| - 1]) else s
  }

  /** `s.strip()`. */
  function Strip(s: string): string {
    RStrip(LStrip(s))
  }

  lemma {:induction false} LStripFacts(s: string)
    ensures |LStrip(s)| <= |s| && LStrip(s) == s[|s| - |LStrip(s)|..]
    ensures |LStrip(s)| > 0 ==> !IsSpace(LStrip(s)[0])
    ensures forall i :: 0 <= i < |s| - |LStrip(s)| ==> IsSpace(s[i])
  {
    if |s| > 0 && IsSpace(s[0]) {
      var t := s[1..];
      LStripFacts(t);
      var r := LStrip(t);
      assert LStrip(s) == r;
      assert t[|t| - |r|..] == s[|s| - |r|..];
      forall i | 1 <= i < |s| - |r| ensures IsSpace(s[i]) {
        assert s[i] == t[i - 1];
      }
    }
  }

  lemma {:induction false} RStripFacts(s: string)
    ensures |RStrip(s)| <= |s| && RStrip(s) == s[..|RStrip(s)|]
    ensures |RStrip(s)| > 0 ==> !IsSpace(RStrip(s)[|RStrip(s)| - 1])
    ensures forall i :: |RStrip(s)| <= i < |s| ==> IsSpace(s[i])
  {
    if |s| > 0 && IsSpace(s[|s| - 1]) {
      var t := s[..|s| - 1];
      RStripFacts(t);
      var r := RStrip(t);
      assert RStrip(s) == r;
      assert t[..|r|] == s[..|r|];
      forall i | |r| <= i < |s| - 1 ensures IsSpace(s[i]) {
        assert s[i] == t[i];
      }
    }
  }

  /** `s[..a]` and `s[b..]` are whitespace only. */
  predicate Margins(s: string, a: nat, b: nat) {
    && a <= b <= |s|
    && (forall i :: 0 <= i < a ==> IsSpace(s[i]))
    && (forall i :: b <= i < |s| ==> IsSpace(s[i]))
  }

  /** `strip` cuts a middle piece out of `s` with whitespace only around it,
      and the piece neither starts nor ends with whitespace. */
  lemma StripFacts(s: string)
    ensures exists a: nat, b: nat :: Margins(s, a, b) && Strip(s) == s[a..b]
    ensures Strip(s) != "" ==> !IsSpace(Strip(s)[0]) && !IsSpace(Strip(s)[|Strip(s)| - 1])
  {
    var l := LStrip(s);
    var r := RStrip(l);
    LStripFacts(s);
    RStripFacts(l);
    var a := |s| - |l|;
    var b := a + |r|;
    assert r == s[a..b];
    forall i | b <= i < |s| ensures IsSpace(s[i]) {
      assert s[i] == l[i - a];
    }
    assert Margins(s, a, b);
    if r != "" {
      assert r[0] == l[0];
    }
  }

  /** A stripped text has nothing left to strip. */
  lemma StripIdempotent(s: string)
    ensures Strip(Strip(s)) == Strip(s)
  {
    StripFacts(s);
    var t := Strip(s);
    if t != "" {
      assert LStrip(t) == t;
      assert RStrip(t) == t;
    } else {
      assert LStrip(t) == t;
    }
  }

  /** `s.split(c)` for every `c` in `seps` at once: the text between
      separators, empty pieces included. With one separator this is
      Python's `split`. */
  function SplitAny(s: string, seps: set<char>): (parts: seq<string>)
    ensures |parts| > 0
    decreases |s|
  {
    if s == [] then [""]
    else
      var init := SplitAny(s[..|s| - 1], seps);
      var c := s[|s| - 1];
      if c in seps then init + [""] else AppendLast(init, c)
  }

  /** The pieces with `c` added to the last one. */
  function AppendLast(parts: seq<string>, c: char): (r: seq<string>)
    requires |parts| > 0
    ensures |r| == |parts|
  {
    parts[..|parts| - 1] + [parts[|parts| - 1] + [c]]
  }

  /** Splitting a text one character longer. */
  lemma SplitAnySnoc(t: string, c: char, seps: set<char>)
    ensures SplitAny(t + [c], seps) ==
      if c in seps then SplitAny(t, seps) + [""] else AppendLast(SplitAny(t, seps), c)
  {
    assert (t + [c])[..|t|] == t;
  }

  /** No piece holds a separator. */
  lemma {:induction false} SplitAnyNoSeparator(s: string, seps: set<char>, i: nat, c: char)
    requires i < |SplitAny(s, seps)| && c in SplitAny(s, seps)[i]
    ensures c !in seps
    decreases |s|
  {
    if s != [] {
      var init := SplitAny(s[..|s| - 1], seps);
      var last := s[|s| - 1];
      if last !in seps && i == |init| - 1 {
        if c != last {
          assert c in init[i];
          SplitAnyNoSeparator(s[..|s| - 1], seps, i, c);
        }
      } else if i < |init| {
        assert SplitAny(s, seps)[i] == init[i];
        SplitAnyNoSeparator(s[..|s| - 1], seps, i, c);
      }
    }
  }

  /** Joining the pieces with the separator gives back the text: `split`
      loses nothing. */
  lemma {:induction false} SplitJoin(s: string, sep: char)
    ensures Join([sep], SplitAny(s, {sep})) == s
    decreases |s|
  {
    if s != [] {
      var t := s[..|s| - 1];
      var init := SplitAny(t, {sep});
      SplitJoin(t, sep);
      if s[|s| - 1] == sep {
        JoinSnoc([sep], init, "");
      } else if |init| == 1 {
        assert SplitAny(s, {sep}) == [init[0] + [s[|s| - 1]]];
      } else {
        var front := init[..|init| - 1];
        assert init == front + [init[|init| - 1]];
        JoinSnoc([sep], front, init[|init| - 1]);
        JoinSnoc([sep], front, init[|init| - 1] + [s[|s| - 1]]);
      }
      assert s == t + [s[|s| - 1]];
    }
  }

  /** `s.replace(a, b)` for single characters. */
  function Replace(s: string, a: char, b: char): (r: string)
    ensures |r| == |s| && forall i :: 0 <= i < |s| ==> r[i] == if s[i] == a then b else s[i]
  {
    seq(|s|, i requires 0 <= i < |s| => if s[i] == a then b else s[i])
  }

  /** `[p.strip() for p in parts if p.strip()]`. */
  function Clean(parts: seq<string>): seq<string> {
    if parts == [] then []
    else
      var init := Clean(parts[..|parts| - 1]);
      var u := Strip(parts[|parts| - 1]);
      if u != "" then init + [u] else init
  }

  lemma {:induction false} CleanAppend(a: seq<string>, b: seq<string>)
    ensures Clean(a + b) == Clean(a) + Clean(b)
    decreases |b|
  {
    if b != [] {
      CleanAppend(a, b[..|b| - 1]);
      assert (a + b)[..|a + b| - 1] == a + b[..|b| - 1];
    } else {
      assert a + b == a;
    }
  }

  /** Every cleaned piece is the stripped form of an input piece, not empty,
      and has nothing left to strip. */
  lemma {:induction false} CleanFacts(parts: seq<string>, j: nat)
    requires j < |Clean(parts)|
    ensures Clean(parts)[j] != "" && Strip(Clean(parts)[j]) == Clean(parts)[j]
    ensures exists i :: 0 <= i < |parts| && Clean(parts)[j] == Strip(parts[i])
    decreases |parts|
  {
    var init := Clean(parts[..|parts| - 1]);
    if j < |init| {
      CleanFacts(parts[..|parts| - 1], j);
      var i :| 0 <= i < |parts| - 1 && init[j] == Strip(parts[..|parts| - 1][i]);
      assert parts[..|parts| - 1][i] == parts[i];
    } else {
      StripIdempotent(parts[|parts| - 1]);
    }
  }

  /** The comma pieces of every line, in order. */
  function Pieces(lines: seq<string>): seq<string> {
    if lines == [] then []
    else Pieces(lines[..|lines| - 1]) + SplitAny(lines[|lines| - 1], {','})
  }

  /** A cell holding URLs: one value, or a list of values. */
  datatype UrlValue = One(c: Cell) | Many(items: seq<Cell>)

  function Texts(items: seq<Cell>): (ts: seq<string>)
    ensures |ts| == |items| && forall i :: 0 <= i < |items| ==> ts[i] == S(items[i])
  {
    seq(|items|, i requires 0 <= i < |items| => S(items[i]))
  }

  /** The lines of a URL text: `;` counts as a line break. */
  function Lines(s: string): seq<string> {
    SplitAny(Replace(s, ';', '\n'), {'\n'})
  }

  /** What `parse_url_list` returns. */
  function UrlList(v: UrlValue): seq<string> {
    match v
    case Many(items) => Clean(Texts(items))
    case One(c) => if IsNull(c) then [] else Clean(Pieces(Lines(S(c))))
  }

  /** The list branch of `parse_url_list`. */
  method CleanTexts(items: seq<Cell>) returns (parts: seq<string>)
    ensures parts == Clean(Texts(items))
  {
    parts := [];
    for i := 0 to |items|
      invariant parts == Clean(Texts(items)[..i])
    {
      var u := Strip(S(items[i]));
      assert Texts(items)[..i + 1][..i] == Texts(items)[..i];
      if u != "" {
        parts := parts + [u];
      }
    }
    assert Texts(items)[..|items|] == Texts(items);
  }

  /** The inner loop over the comma pieces of one line. */
  method AppendCleaned(parts: seq<string>, subs: seq<string>) returns (parts': seq<string>)
    ensures parts' == parts + Clean(subs)
  {
    parts' := parts;
    for j := 0 to |subs|
      invariant parts' == parts + Clean(subs[..j])
    {
      var u := Strip(subs[j]);
      assert subs[..j + 1][..j] == subs[..j];
      if u != "" {
        parts' := parts' + [u];
      }
    }
    assert subs[..|subs|] == subs;
  }

  /** The text branch of `parse_url_list`. */
  method CleanPieces(s: string) returns (parts: seq<string>)
    ensures parts == Clean(Pieces(Lines(s)))
  {
    parts := [];
    var lines := Lines(s);
    for i := 0 to |lines|
      invariant parts == Clean(Pieces(lines[..i]))
    {
      var subs := SplitAny(lines[i], {','});
      parts := AppendCleaned(parts, subs);
      assert lines[..i + 1][..i] == lines[..i];
      CleanAppend(Pieces(lines[..i]), subs);
    }
    assert lines[..|lines|] == lines;
  }

  /** `parse_url_list`: an empty cell gives no URLs, a list its stripped
      non-empty entries, and a text its stripped non-empty pieces between
      `;`, line breaks and `,`. */
  method ParseUrlList(v: UrlValue) returns (parts: seq<string>)
    ensures parts == UrlList(v)
  {
    match v {
      case Many(items) =>
        parts := CleanTexts(items);
      case One(c) =>
        if IsNull(c) {
          return [];
        }
        parts := CleanPieces(S(c));
    }
  }

  lemma ReplaceSnoc(t: string, c: char)
    ensures Replace(t + [c], ';', '\n') == Replace(t, ';', '\n') + [if c == ';' then '\n' else c]
  {
  }

  /** The lines of a text one character longer. */
  lemma LinesSnoc(t: string, c: char)
    ensures Lines(t + [c]) ==
      if c == ';' || c == '\n' then Lines(t) + [""] else AppendLast(Lines(t), c)
  {
    ReplaceSnoc(t, c);
    SplitAnySnoc(Replace(t, ';', '\n'), if c == ';' then '\n' else c, {'\n'});
  }

  lemma PiecesSnoc(lines: seq<string>, line: string)
    ensures Pieces(lines + [line]) == Pieces(lines) + SplitAny(line, {','})
  {
    assert (lines + [line])[..|lines|] == lines;
  }

  lemma AppendLastConcat(xs: seq<string>, ys: seq<string>, c: char)
    requires |ys| > 0
    ensures xs + AppendLast(ys, c) == AppendLast(xs + ys, c)
  {
    assert (xs + ys)[..|xs + ys| - 1] == xs + ys[..|ys| - 1];
  }

  /** Adding a character to the last line adds it to the last piece, or
      starts a new piece when it is a comma. */
  lemma PiecesAppendLast(front: seq<string>, last: string, c: char)
    ensures Pieces(front + [last + [c]]) ==
      if c == ',' then Pieces(front + [last]) + [""] else AppendLast(Pieces(front + [last]), c)
  {
    PiecesSnoc(front, last);
    PiecesSnoc(front, last + [c]);
    SplitAnySnoc(last, c, {','});
    var pl := SplitAny(last, {','});
    if c != ',' {
      AppendLastConcat(Pieces(front), pl, c);
    }
  }

  /** Splitting lines first and commas second is one split on all three
      separators. */
  lemma {:induction false} PiecesIsOneSplit(s: string)
    ensures Pieces(Lines(s)) == SplitAny(s, {',', ';', '\n'})
    decreases |s|
  {
    if s != [] {
      var t := s[..|s| - 1];
      var c := s[|s| - 1];
      assert s == t + [c];
      PiecesIsOneSplit(t);
      LinesSnoc(t, c);
      SplitAnySnoc(t, c, {',', ';', '\n'});
      if c == ';' || c == '\n' {
        PiecesSnoc(Lines(t), "");
      } else {
        var ls := Lines(t);
        assert ls == ls[..|ls| - 1] + [ls[|ls| - 1]];
        assert AppendLast(ls, c) == ls[..|ls| - 1] + [ls[|ls| - 1] + [c]];
        PiecesAppendLast(ls[..|ls| - 1], ls[|ls| - 1], c);
      }
    }
  }

  /** Stripping only removes characters. */
  lemma StripKeepsChars(s: string, x: char)
    requires x in Strip(s)
    ensures x in s
  {
    var l := LStrip(s);
    LStripFacts(s);
    RStripFacts(l);
    assert x in l;
  }

  /** No URL cut from a text holds a separator. */
  lemma TextUrlsHaveNoSeparator(s: string, j: nat, x: char)
    requires j < |Clean(Pieces(Lines(s)))| && x in Clean(Pieces(Lines(s)))[j]
    ensures x != ',' && x != ';' && x != '\n'
  {
    var ps := Pieces(Lines(s));
    CleanFacts(ps, j);
    PiecesIsOneSplit(s);
    var i :| 0 <= i < |ps| && Clean(ps)[j] == Strip(ps[i]);
    StripKeepsChars(ps[i], x);
    SplitAnyNoSeparator(s, {',', ';', '\n'}, i, x);
  }

  /** Every URL is non-empty and stripped; from a text, none holds a `,`,
      `;` or line break. */
  lemma UrlListFacts(v: UrlValue, j: nat)
    requires j < |UrlList(v)|
    ensures UrlList(v)[j] != "" && Strip(UrlList(v)[j]) == UrlList(v)[j]
    ensures v.One? ==> ',' !in UrlList(v)[j] && ';' !in UrlList(v)[j] && '\n' !in UrlList(v)[j]
  {
    match v
    case Many(items) =>
      CleanFacts(Texts(items), j);
    case One(c) =>
      var ps := Pieces(Lines(S(c)));
      CleanFacts(ps, j);
      forall x | x in UrlList(v)[j] ensures x != ',' && x != ';' && x != '\n' {
        TextUrlsHaveNoSeparator(S(c), j, x);
      }
  }
}
