/**
  The path decoder of pkg/collector/tree.go: an OpenConfig path such as
  `/interfaces/interface[name='xe-0/0/0']/state/pkts` becomes a sequence of
  identifiers (segment name, raw bracket predicate). A `/` only separates
  segments outside brackets, so an interface name holding slashes stays in
  one segment.

  The scanners of the source are loops; each is a method here, proved equal
  to a specification function written by recursion on the input with its
  last character split off, so that the loop invariant is "the function
  applied to the prefix read so far". Lemmas then say what the functions
  mean: the segments join back to the input, a well-formed path decodes to
  the identifiers it was written from, and so on.
 */
module Path {
  import opened Seqs
  import opened GoStrings

  /** A path segment: its name and the raw text of its last `[...]` group. */
  datatype Identifier = Identifier(name: string, labels: string)

  // ---------------------------------------------------------------------
  // dropSlashPrefixSuffix

  /** At most one leading and one trailing `/` are dropped. The input `"/"`
      makes the source slice `[1:0]`, which panics: it is excluded. */
  function DropSlashPrefixSuffix(p: string): (r: string)
    requires p != "/"
    ensures (if HasPrefix(p, "/") then "/" else "") + r + (if HasSuffix(p, "/") then "/" else "") == p
    ensures |r| + 2 >= |p|
  {
    var start := if HasPrefix(p, "/") then 1 else 0;
    var end := if HasSuffix(p, "/") then |p| - 1 else |p|;
    p[start..end]
  }

  // ---------------------------------------------------------------------
  // Bracket depth

  /** The depth counter after one character: `[` opens, `]` closes, and a
      `]` at depth zero is ignored, so the counter never goes negative. */
  function Step(d: nat, c: char): nat
  {
    if c == '[' then d + 1
    else if c == ']' && d > 0 then d - 1
    else d
  }

  /** The depth after scanning `s`, starting from depth `d`. */
  function DepthFrom(d: nat, s: string): nat
    decreases |s|
  {
    if s == [] then d else Step(DepthFrom(d, s[..|s| - 1]), s[|s| - 1])
  }

  function Depth(s: string): nat
  {
    DepthFrom(0, s)
  }

  lemma {:induction false} DepthFromAppend(d: nat, a: string, b: string)
    ensures DepthFrom(d, a + b) == DepthFrom(DepthFrom(d, a), b)
    decreases |b|
  {
    if b == [] {
      assert a + b == a;
    } else {
      var b' := b[..|b| - 1];
      assert (a + b)[..|a + b| - 1] == a + b';
      DepthFromAppend(d, a, b');
    }
  }

  /** Text without `[` never raises the depth. */
  lemma {:induction false} DepthNoOpen(d: nat, s: string)
    requires '[' !in s
    ensures DepthFrom(d, s) <= d
    ensures d == 0 ==> DepthFrom(d, s) == 0
    decreases |s|
  {
    if s != [] {
      assert s == s[..|s| - 1] + [s[|s| - 1]];
      DepthNoOpen(d, s[..|s| - 1]);
    }
  }

  /** Text without brackets leaves the depth as it is. */
  lemma {:induction false} DepthNoBrackets(d: nat, s: string)
    requires '[' !in s && ']' !in s
    ensures DepthFrom(d, s) == d
    decreases |s|
  {
    if s != [] {
      assert s == s[..|s| - 1] + [s[|s| - 1]];
      DepthNoBrackets(d, s[..|s| - 1]);
    }
  }

  // ---------------------------------------------------------------------
  // Splitting at top-level slashes

  /** One character of the splitter: a `/` at depth zero starts a new
      piece, any other character extends the last one. */
  function SegStep(r0: seq<string>, d: nat, c: char): (r: seq<string>)
    requires |r0| >= 1
    ensures |r| >= 1
  {
    if c == '/' && d == 0 then r0 + [""]
    else r0[..|r0| - 1] + [r0[|r0| - 1] + [c]]
  }

  /** The pieces of `s` between the slashes met at depth zero, in order;
      the last piece is the one still being read. */
  function Segments(s: string): (r: seq<string>)
    ensures |r| >= 1
    decreases |s|
  {
    if s == [] then [""]
    else SegStep(Segments(s[..|s| - 1]), Depth(s[..|s| - 1]), s[|s| - 1])
  }

  lemma SegmentsSnoc(s: string, c: char)
    ensures Segments(s + [c]) == SegStep(Segments(s), Depth(s), c)
    ensures Depth(s + [c]) == Step(Depth(s), c)
  {
    assert (s + [c])[..|s|] == s;
  }

  /** No `/` of `p` is at depth zero. */
  ghost predicate NoTopSlash(p: string)
  {
    forall i :: 0 <= i < |p| && p[i] == '/' ==> Depth(p[..i]) > 0
  }

  /** The pieces, joined again with `/`, give the input back: splitting
      loses nothing and invents nothing. */
  lemma {:induction false} SegmentsJoin(s: string)
    ensures Join(Segments(s), '/') == s
    decreases |s|
  {
    if s != [] {
      var init := s[..|s| - 1];
      var c := s[|s| - 1];
      var r0 := Segments(init);
      SegmentsJoin(init);
      SegmentsSnoc(init, c);
      FrontLast(s);
      if c == '/' && Depth(init) == 0 {
        JoinSnoc(r0, "", '/');
      } else {
        JoinExtendLast(r0, [c], '/');
      }
    }
  }

  /** There are at most as many pieces as slashes plus one (the capacity
      the source reserves with `slashCount`). */
  lemma {:induction false} SegmentsCount(s: string)
    ensures |Segments(s)| <= multiset(s)['/'] + 1
    decreases |s|
  {
    if s != [] {
      var init := s[..|s| - 1];
      assert s == init + [s[|s| - 1]];
      SegmentsCount(init);
      SegmentsSnoc(init, s[|s| - 1]);
    }
  }

  /** The depth at the end of the input equals the depth at the end of its
      last piece read from depth zero. */
  lemma {:induction false} SegmentsLastDepth(s: string)
    ensures Depth(Segments(s)[|Segments(s)| - 1]) == Depth(s)
    decreases |s|
  {
    if s != [] {
      var init := s[..|s| - 1];
      var c := s[|s| - 1];
      var r0 := Segments(init);
      SegmentsLastDepth(init);
      SegmentsSnoc(init, c);
      FrontLast(s);
      if !(c == '/' && Depth(init) == 0) {
        SegmentsSnoc(r0[|r0| - 1], c);
      }
    }
  }

  /** A piece stays free of top-level slashes when it grows by a
      character that is not a slash at depth zero. */
  lemma NoTopSlashSnoc(last: string, c: char)
    requires NoTopSlash(last) && (c != '/' || Depth(last) > 0)
    ensures NoTopSlash(last + [c])
  {
    var p := last + [c];
    forall i | 0 <= i < |p| && p[i] == '/'
      ensures Depth(p[..i]) > 0
    {
      if i < |last| {
        assert p[..i] == last[..i];
      } else {
        assert p[..i] == last;
      }
    }
  }

  /** Every piece is free of top-level slashes. */
  lemma {:induction false} SegmentsHaveNoTopSlash(s: string, k: nat)
    requires k < |Segments(s)|
    ensures NoTopSlash(Segments(s)[k])
    decreases |s|
  {
    if s != [] {
      var init := s[..|s| - 1];
      var c := s[|s| - 1];
      var r0 := Segments(init);
      FrontLast(s);
      SegmentsSnoc(init, c);
      var r := Segments(s);
      assert r == SegStep(r0, Depth(init), c);
      if c == '/' && Depth(init) == 0 {
        if k < |r0| {
          assert r[k] == r0[k];
          SegmentsHaveNoTopSlash(init, k);
        } else {
          assert r[k] == "";
        }
      } else if k < |r0| - 1 {
        assert r[k] == r0[k];
        SegmentsHaveNoTopSlash(init, k);
      } else {
        var last := r0[|r0| - 1];
        assert r[k] == last + [c];
        SegmentsHaveNoTopSlash(init, |r0| - 1);
        SegmentsLastDepth(init);
        NoTopSlashSnoc(last, c);
      }
    }
  }

  /** A piece without top-level slashes is not split. */
  lemma {:induction false} SegmentsOfPiece(p: string)
    requires NoTopSlash(p)
    ensures Segments(p) == [p]
    decreases |p|
  {
    if p != [] {
      var init := p[..|p| - 1];
      var c := p[|p| - 1];
      forall i | 0 <= i < |init| && init[i] == '/'
        ensures Depth(init[..i]) > 0
      {
        PrefixOfPrefix(p, |init|, i);
      }
      SegmentsOfPiece(init);
      FrontLast(p);
      SegmentsSnoc(init, c);
    }
  }

  /** A step of the splitter only looks at the last piece. */
  /** The splitter step, with the last piece named. */
  lemma SegStepLast(pieces: seq<string>, tmp: string, d: nat, c: char)
    ensures SegStep(pieces + [tmp], d, c)
      == if c == '/' && d == 0 then pieces + [tmp, ""] else pieces + [tmp + [c]]
  {
    var r0 := pieces + [tmp];
    assert r0[..|r0| - 1] == pieces;
  }

  lemma SegStepAppend(x: seq<string>, y: seq<string>, d: nat, c: char)
    requires |y| >= 1
    ensures SegStep(x + y, d, c) == x + SegStep(y, d, c)
  {
    if !(c == '/' && d == 0) {
      assert (x + y)[..|x + y| - 1] == x + y[..|y| - 1];
    }
  }

  /** Cutting at a slash met at depth zero: the pieces of the two sides,
      one after the other. */
  lemma {:induction false} SegmentsConcat(a: string, b: string)
    requires Depth(a) == 0
    ensures Segments(a + ['/'] + b) == Segments(a) + Segments(b)
    decreases |b|
  {
    var a' := a + ['/'];
    SegmentsSnoc(a, '/');
    if b == [] {
      assert a' + b == a';
    } else {
      var init := b[..|b| - 1];
      var c := b[|b| - 1];
      SegmentsConcat(a, init);
      assert a' + b == (a' + init) + [c];
      FrontLast(b);
      SegmentsSnoc(a' + init, c);
      SegmentsSnoc(init, c);
      DepthFromAppend(0, a', init);
      SegStepAppend(Segments(a), Segments(init), Depth(init), c);
    }
  }

  // ---------------------------------------------------------------------
  // pathElementToIdentifier / parseKey scanner

  /** The state of the bracket scanner shared by `pathElementToIdentifier`
      and `parseKey`: the characters read outside brackets, the contents of
      the groups closed so far, whether a group is open, and its text. */
  datatype ScanState = ScanState(outside: string, groups: seq<string>, within: bool, open: string)

  /** One character of the scanner. A `[` outside a group opens one (and
      is dropped); a `]` inside a group closes it; any other character goes
      to the current group or to the outside text. A nested `[` is group
      text. */
  function ScanStep(st: ScanState, c: char): ScanState
  {
    if !st.within then
      if c == '[' then st.(within := true)
      else st.(outside := st.outside + [c])
    else if c == ']' then ScanState(st.outside, st.groups + [st.open], false, "")
    else st.(open := st.open + [c])
  }

  /** The scanner after reading `data`. */
  function Scan(data: string): (st: ScanState)
    ensures '[' !in st.outside
    ensures ']' !in st.open && forall g :: g in st.groups ==> ']' !in g
    ensures !st.within ==> st.open == ""
    decreases |data|
  {
    if data == [] then ScanState("", [], false, "")
    else ScanStep(Scan(data[..|data| - 1]), data[|data| - 1])
  }

  lemma ScanSnoc(s: string, c: char)
    ensures Scan(s + [c]) == ScanStep(Scan(s), c)
  {
    assert (s + [c])[..|s|] == s;
  }

  /** The identifier of one segment: the outside text is the name and the
      last closed group is the label string (empty when none closed). */
  function Element(data: string): (id: Identifier)
    ensures '[' !in id.name && ']' !in id.labels
  {
    var st := Scan(data);
    Identifier(st.outside, if st.groups == [] then "" else st.groups[|st.groups| - 1])
  }

  /** Plain text (no `[`) read outside a group is appended to the name. */
  lemma {:induction false} ScanPlain(a: string, k: string)
    requires !Scan(a).within && '[' !in k
    ensures Scan(a + k) == Scan(a).(outside := Scan(a).outside + k)
    decreases |k|
  {
    if k == [] {
      assert a + k == a;
    } else {
      var k' := k[..|k| - 1];
      var c := k[|k| - 1];
      ScanPlain(a, k');
      assert a + k == (a + k') + [c];
      ScanSnoc(a + k', c);
      assert Scan(a).outside + k' + [c] == Scan(a).outside + k;
    }
  }

  /** Text without `]` read inside a group is appended to the group. */
  lemma {:induction false} ScanInside(a: string, g: string)
    requires Scan(a).within && ']' !in g
    ensures Scan(a + g) == Scan(a).(open := Scan(a).open + g)
    decreases |g|
  {
    if g == [] {
      assert a + g == a;
    } else {
      var g' := g[..|g| - 1];
      var c := g[|g| - 1];
      ScanInside(a, g');
      assert a + g == (a + g') + [c];
      ScanSnoc(a + g', c);
      assert Scan(a).open + g' + [c] == Scan(a).open + g;
    }
  }

  /** A closed group `[g]` read outside a group adds `g` to the groups. */
  lemma ScanGroup(a: string, g: string)
    requires !Scan(a).within && ']' !in g
    ensures Scan(a + "[" + g + "]") == Scan(a).(groups := Scan(a).groups + [g])
  {
    var st := Scan(a);
    var a1 := a + "[";
    ScanSnoc(a, '[');
    assert Scan(a1) == st.(within := true);
    var a2 := a1 + g;
    ScanInside(a1, g);
    assert Scan(a2) == st.(within := true, open := g);
    ScanSnoc(a2, ']');
    assert a + "[" + g + "]" == a2 + [']'];
  }

  /** An unterminated group contributes nothing: its text is dropped. */
  lemma ScanUnterminated(a: string, rest: string)
    requires !Scan(a).within && ']' !in rest
    ensures Scan(a + "[" + rest).outside == Scan(a).outside
    ensures Scan(a + "[" + rest).groups == Scan(a).groups
  {
    ScanSnoc(a, '[');
    ScanInside(a + "[", rest);
  }

  /** How a well-formed identifier is written in a path. */
  function FormatElement(id: Identifier): string
  {
    id.name + (if id.labels == "" then "" else "[" + id.labels + "]")
  }

  /** An identifier that can be written and read back: a non-empty name
      without `/` or `[`, and a label string without brackets (it may hold
      slashes). */
  predicate WellFormed(id: Identifier)
  {
    id.name != "" && '/' !in id.name && '[' !in id.name
    && '[' !in id.labels && ']' !in id.labels
  }

  /** Reading a written identifier gives it back. */
  lemma ElementFormat(id: Identifier)
    requires '[' !in id.name && ']' !in id.labels
    ensures Element(FormatElement(id)) == id
  {
    ScanPlain("", id.name);
    assert "" + id.name == id.name;
    if id.labels != "" {
      ScanGroup(id.name, id.labels);
      assert FormatElement(id) == id.name + "[" + id.labels + "]";
    } else {
      assert FormatElement(id) == id.name;
    }
  }

  // ---------------------------------------------------------------------
  // pathToIdentifiers

  /** The pieces that the decoder keeps: an empty last piece (the input
      was empty, or ended in a slash the stripping left) is dropped. */
  function Kept(segs: seq<string>): (kept: seq<string>)
    requires |segs| >= 1
    ensures kept == segs || (segs[|segs| - 1] == "" && kept == segs[..|segs| - 1])
    ensures forall i :: 0 <= i < |kept| ==> kept[i] != "" || i < |segs| - 1
  {
    if segs[|segs| - 1] == "" then segs[..|segs| - 1] else segs
  }

  /** Each piece read as an identifier, in order. */
  function Elements(pieces: seq<string>): (ids: seq<Identifier>)
    ensures |ids| == |pieces|
    ensures forall i :: 0 <= i < |ids| ==> ids[i] == Element(pieces[i])
  {
    seq(|pieces|, i requires 0 <= i < |pieces| => Element(pieces[i]))
  }

  lemma ElementsSnoc(pieces: seq<string>, p: string)
    ensures Elements(pieces + [p]) == Elements(pieces) + [Element(p)]
  {
  }

  /** The decoded path: the pieces of the input (stripped of one leading
      and one trailing `/`), an empty last piece dropped, each read as an
      identifier. Empty pieces in the middle stay. */
  function Decode(p: string): (ids: seq<Identifier>)
    requires p != "/"
    ensures |ids| <= multiset(DropSlashPrefixSuffix(p))['/'] + 1
    ensures p == "" ==> ids == []
    ensures forall i :: 0 <= i < |ids| ==> '[' !in ids[i].name
  {
    SegmentsCount(DropSlashPrefixSuffix(p));
    Elements(Kept(Segments(DropSlashPrefixSuffix(p))))
  }

  /** Each identifier written out, in order. */
  function Formatted(ids: seq<Identifier>): (pieces: seq<string>)
    ensures |pieces| == |ids|
    ensures forall i :: 0 <= i < |ids| ==> pieces[i] == FormatElement(ids[i])
  {
    seq(|ids|, i requires 0 <= i < |ids| => FormatElement(ids[i]))
  }

  /** How a path is written from its identifiers. */
  function Encode(ids: seq<Identifier>): string
  {
    Join(Formatted(ids), '/')
  }

  /** A written identifier is one piece that leaves the depth at zero. */
  lemma FormatElementPiece(id: Identifier)
    requires WellFormed(id)
    ensures NoTopSlash(FormatElement(id)) && Depth(FormatElement(id)) == 0
  {
    var f := FormatElement(id);
    var name := id.name;
    DepthNoOpen(0, name);
    if id.labels == "" {
      assert f == name;
    } else {
      var o := name + "[";
      var labels := id.labels;
      assert f == o + labels + "]";
      SegmentsSnoc(name, '[');
      assert Depth(o) == 1;
      forall i | 0 <= i < |f| && f[i] == '/'
        ensures Depth(f[..i]) > 0
      {
        if |name| < i < |f| - 1 {
          var g := labels[..i - |o|];
          assert f[..i] == o + g;
          DepthFromAppend(0, o, g);
          DepthNoBrackets(1, g);
        }
      }
      DepthFromAppend(0, o, labels);
      DepthNoBrackets(1, labels);
      SegmentsSnoc(o + labels, ']');
    }
  }

  /** The pieces of a join of pieces are those pieces. */
  lemma {:induction false} SegmentsOfJoin(pieces: seq<string>)
    requires |pieces| >= 1
    requires forall i :: 0 <= i < |pieces| ==> NoTopSlash(pieces[i]) && Depth(pieces[i]) == 0
    ensures Segments(Join(pieces, '/')) == pieces
    decreases |pieces|
  {
    SegmentsOfPiece(pieces[0]);
    if |pieces| > 1 {
      SegmentsOfJoin(pieces[1..]);
      SegmentsConcat(pieces[0], Join(pieces[1..], '/'));
      assert [pieces[0]] + pieces[1..] == pieces;
    }
  }

  /** Round trip: a path written from well-formed identifiers decodes to
      those identifiers, whatever slashes their label strings hold. */
  lemma DecodeEncode(ids: seq<Identifier>)
    requires forall i :: 0 <= i < |ids| ==> WellFormed(ids[i])
    ensures Encode(ids) != "/" && Decode(Encode(ids)) == ids
    ensures Elements(Kept(Segments(Encode(ids)))) == ids
  {
    var pieces := Formatted(ids);
    var e := Encode(ids);
    if ids == [] {
      assert e == "";
    } else {
      FormattedPieces(ids);
      SegmentsOfJoin(pieces);
      EncodeEnds(ids);
      assert DropSlashPrefixSuffix(e) == e by {
        assert !HasPrefix(e, "/") && !HasSuffix(e, "/");
      }
      assert Kept(pieces) == pieces;
      ElementsFormatted(ids);
    }
  }

  /** Every written identifier is one piece at depth zero. */
  lemma FormattedPieces(ids: seq<Identifier>)
    requires forall i :: 0 <= i < |ids| ==> WellFormed(ids[i])
    ensures forall i :: 0 <= i < |ids| ==> NoTopSlash(Formatted(ids)[i]) && Depth(Formatted(ids)[i]) == 0
  {
    forall i | 0 <= i < |ids|
      ensures NoTopSlash(Formatted(ids)[i]) && Depth(Formatted(ids)[i]) == 0
    {
      FormatElementPiece(ids[i]);
    }
  }

  /** Reading the written identifiers back gives them. */
  lemma ElementsFormatted(ids: seq<Identifier>)
    requires forall i :: 0 <= i < |ids| ==> WellFormed(ids[i])
    ensures Elements(Formatted(ids)) == ids
  {
    var pieces := Formatted(ids);
    forall i | 0 <= i < |ids|
      ensures Elements(pieces)[i] == ids[i]
    {
      ElementFormat(ids[i]);
    }
  }

  /** A written path neither starts nor ends with `/`. */
  lemma EncodeEnds(ids: seq<Identifier>)
    requires |ids| >= 1
    requires forall i :: 0 <= i < |ids| ==> WellFormed(ids[i])
    ensures var e := Encode(ids); e != [] && e[0] != '/' && e[|e| - 1] != '/'
  {
    var pieces := Formatted(ids);
    var n := |pieces|;
    assert pieces[0][0] == ids[0].name[0];
    var last := pieces[n - 1];
    assert last != [] && last[|last| - 1] != '/' by {
      var id := ids[n - 1];
      if id.labels == "" {
        assert last == id.name;
      } else {
        assert last == id.name + "[" + id.labels + "]";
      }
    }
    EncodeFirstLast(pieces);
  }

  /** The first and last characters of a join of non-empty pieces. */
  lemma {:induction false} EncodeFirstLast(pieces: seq<string>)
    requires |pieces| >= 1 && pieces[0] != [] && pieces[|pieces| - 1] != []
    ensures var e := Join(pieces, '/');
      |e| >= 1 && e[0] == pieces[0][0] && e[|e| - 1] == pieces[|pieces| - 1][|pieces[|pieces| - 1]| - 1]
    decreases |pieces|
  {
    if |pieces| > 1 {
      var rest := pieces[1..];
      if rest[0] == [] {
        if |rest| > 1 {
          EncodeFirstLast([pieces[0]] + rest[1..]);
        }
      } else {
        EncodeFirstLast(rest);
      }
    }
  }

  lemma DropBothSlashes(x: string)
    ensures "/" + x + "/" != "/" && DropSlashPrefixSuffix("/" + x + "/") == x
  {
    var p := "/" + x + "/";
    assert p[..1] == "/";
    assert p[|p| - 1..] == "/";
    assert p[1..|p| - 1] == x;
  }

  /** The usual form of a subscribed path, with a leading and a trailing
      slash, decodes the same way. */
  lemma DecodeEncodeSlashed(ids: seq<Identifier>)
    requires forall i :: 0 <= i < |ids| ==> WellFormed(ids[i])
    ensures Decode("/" + Encode(ids) + "/") == ids
  {
    DropBothSlashes(Encode(ids));
    DecodeEncode(ids);
  }

  // ---------------------------------------------------------------------
  // The scanning loops of the source

  /** `slashCount`: the number of `/` characters. */
  method SlashCount(runes: string) returns (count: nat)
    ensures count == multiset(runes)['/']
  {
    count := 0;
    for i := 0 to |runes|
      invariant count == multiset(runes[..i])['/']
    {
      PrefixSnoc(runes, i);
      if runes[i] == '/' {
        count := count + 1;
      }
    }
    assert runes[..|runes|] == runes;
  }

  /** `pathElementToIdentifier`. */
  method PathElementToIdentifier(data: string) returns (id: Identifier)
    ensures id == Element(data)
  {
    var key := "";
    var labelsString := "";
    var withinAngledBraces := false;
    var tmp := "";
    ghost var groups: seq<string> := [];
    for i := 0 to |data|
      invariant Scan(data[..i]) == ScanState(key, groups, withinAngledBraces, tmp)
      invariant labelsString == if groups == [] then "" else groups[|groups| - 1]
    {
      PrefixOfPrefix(data, i + 1, i);
      if !withinAngledBraces {
        if data[i] == '[' {
          withinAngledBraces := true;
          continue;
        }
        key := key + [data[i]];
        continue;
      }
      if data[i] == ']' {
        labelsString := tmp;
        groups := groups + [tmp];
        withinAngledBraces := false;
        tmp := "";
        continue;
      }
      tmp := tmp + [data[i]];
    }
    assert data[..|data|] == data;
    id := Identifier(key, labelsString);
  }

  /** One character of the `pathToIdentifiers` loop, stated on the
      specification functions. */
  lemma PathStep(runes: string, i: nat, pieces: seq<string>, tmp: string)
    requires i < |runes| && pieces + [tmp] == Segments(runes[..i])
    ensures Depth(runes[..i + 1]) == Step(Depth(runes[..i]), runes[i])
    ensures Segments(runes[..i + 1])
      == if runes[i] == '/' && Depth(runes[..i]) == 0 then (pieces + [tmp]) + [""] else pieces + [tmp + [runes[i]]]
  {
    PrefixSnoc(runes, i);
    SegmentsSnoc(runes[..i], runes[i]);
    SegStepLast(pieces, tmp, Depth(runes[..i]), runes[i]);
  }

  /** `pathToIdentifiers`: the loop with the bracket-depth counter. */
  method PathToIdentifiers(p: string) returns (ids: seq<Identifier>)
    requires p != "/"
    ensures ids == Decode(p)
  {
    var runes := DropSlashPrefixSuffix(p);
    var capacity := SlashCount(runes);
    ids := [];
    var bracesLevel: nat := 0;
    var tmp := "";
    ghost var pieces: seq<string> := [];
    assert runes[..0] == [];
    for i := 0 to |runes|
      invariant bracesLevel == Depth(runes[..i])
      invariant pieces + [tmp] == Segments(runes[..i])
      invariant ids == Elements(pieces)
    {
      ghost var d0 := bracesLevel;
      if runes[i] == '[' {
        bracesLevel := bracesLevel + 1;
      }
      if bracesLevel > 0 {
        if runes[i] == ']' {
          bracesLevel := bracesLevel - 1;
        }
      }
      assert bracesLevel == Step(d0, runes[i]);
      PathStep(runes, i, pieces, tmp);
      if runes[i] == '/' {
        if bracesLevel == 0 {
          var id := PathElementToIdentifier(tmp);
          ElementsSnoc(pieces, tmp);
          ids := ids + [id];
          pieces := pieces + [tmp];
          tmp := "";
          continue;
        }
      }
      tmp := tmp + [runes[i]];
    }
    assert runes[..|runes|] == runes;
    DecodeFromPieces(p, pieces, tmp);
    if |tmp| > 0 {
      var id := PathElementToIdentifier(tmp);
      ElementsSnoc(pieces, tmp);
      ids := ids + [id];
    }
  }

  /** The end of `pathToIdentifiers`: the last piece is kept unless it is
      empty. */
  lemma DecodeFromPieces(p: string, pieces: seq<string>, tmp: string)
    requires p != "/" && pieces + [tmp] == Segments(DropSlashPrefixSuffix(p))
    ensures Decode(p) == Elements(if |tmp| > 0 then pieces + [tmp] else pieces)
  {
    if |tmp| == 0 {
      assert (pieces + [tmp])[..|pieces|] == pieces;
    }
  }
}
