/**
  The label strings of pkg/collector/tree.go: the text of a bracket
  predicate (`name='xe-0/0/0',unit=0`) or of a description, read as a list
  of key/value labels. Pairs that do not parse are dropped one by one by
  `labelStringToLabels`; the validator `descLabels` accepts a description
  only when every pair parses.
 */
module Labels {
  import opened Seqs
  import opened GoStrings
  import opened Telemetry
  import opened Metric

  /** A character that can start an identifier. */
  predicate IsIdentStart(c: char)
  {
    ('a' <= c <= 'z') || ('A' <= c <= 'Z') || c == '_'
  }

  /** `descLabelRegexp.Match`: the pattern `[a-zA-Z_][a-zA-Z0-9_]*` is not
      anchored, so it matches exactly the strings holding some identifier
      start character anywhere. */
  predicate HasIdentChar(s: string)
    decreases |s|
  {
    s != [] && (IsIdentStart(s[0]) || HasIdentChar(s[1..]))
  }

  lemma {:induction false} HasIdentCharIff(s: string)
    ensures HasIdentChar(s) <==> exists i :: 0 <= i < |s| && IsIdentStart(s[i])
    decreases |s|
  {
    if s != [] {
      HasIdentCharIff(s[1..]);
      if !IsIdentStart(s[0]) && HasIdentChar(s[1..]) {
        var j :| 0 <= j < |s[1..]| && IsIdentStart(s[1..][j]);
        assert IsIdentStart(s[j + 1]);
      }
      if exists i :: 0 <= i < |s| && IsIdentStart(s[i]) {
        var i :| 0 <= i < |s| && IsIdentStart(s[i]);
        if i > 0 {
          assert IsIdentStart(s[1..][i - 1]);
        }
      }
    }
  }

  /** The test both readers apply to one `key=value` pair: splitting at
      `=` gives exactly two parts and the key matches the pattern. */
  predicate PairAccepted(p: string)
  {
    var kv := Split(p, '=');
    |kv| == 2 && HasIdentChar(kv[0])
  }

  /** The pair test in plain terms: exactly one `=`, and an identifier
      character somewhere before it. */
  lemma PairAcceptedIff(p: string)
    ensures PairAccepted(p) <==> multiset(p)['='] == 1 && HasIdentChar(p[..IndexOf(p, '=')])
  {
    if '=' in p {
      var i := IndexOf(p, '=');
      assert Split(p, '=')[0] == p[..i];
    } else {
      assert multiset(p)['='] == 0;
    }
  }

  /** One pair as `labelStringToLabels` reads it: rejected, or its key and
      value rewritten. */
  function ParsePair(p: string): (r: Option<Label>)
    ensures r.Some? <==> PairAccepted(p)
    ensures r.Some? ==> '-' !in r.value.key && '\'' !in r.value.key && '\'' !in r.value.value
  {
    var kv := Split(p, '=');
    if |kv| != 2 then None
    else if !HasIdentChar(kv[0]) then None
    else Some(Label(LabelKeyReplace(kv[0]), LabelValueReplace(kv[1])))
  }

  /** The labels read from a list of pairs, rejected pairs left out, in
      input order. */
  function ParsePairs(parts: seq<string>): (r: seq<Label>)
    ensures |r| <= |parts|
    ensures forall i :: 0 <= i < |r| ==> '-' !in r[i].key && '\'' !in r[i].key && '\'' !in r[i].value
    decreases |parts|
  {
    if parts == [] then []
    else
      var init := ParsePairs(parts[..|parts| - 1]);
      match ParsePair(parts[|parts| - 1])
      case None => init
      case Some(l) => init + [l]
  }

  /** `labelStringToLabels` as a function: the pairs between commas. */
  function LabelsOf(input: string): seq<Label>
  {
    ParsePairs(Split(input, ','))
  }

  /** `labelStringToLabels`. */
  method LabelStringToLabels(input: string) returns (res: seq<Label>)
    ensures res == LabelsOf(input)
  {
    res := [];
    var parts := Split(input, ',');
    for i := 0 to |parts|
      invariant res == ParsePairs(parts[..i])
    {
      ParsePairsStep(parts, i);
      var kv := Split(parts[i], '=');
      if |kv| != 2 {
        continue;
      }
      if !HasIdentChar(kv[0]) {
        continue;
      }
      res := res + [Label(LabelKeyReplace(kv[0]), LabelValueReplace(kv[1]))];
    }
    assert parts[..|parts|] == parts;
  }

  /** One more pair read: its label follows when it is accepted. */
  lemma ParsePairsStep(parts: seq<string>, i: nat)
    requires i < |parts|
    ensures ParsePairs(parts[..i + 1])
      == ParsePairs(parts[..i]) + (if PairAccepted(parts[i]) then [ParsePair(parts[i]).value] else [])
  {
    PrefixOfPrefix(parts, i + 1, i);
  }

  /** Reading is done pair by pair: the labels of two lists of pairs are
      the labels of each, in order. */
  lemma {:induction false} ParsePairsAppend(a: seq<string>, b: seq<string>)
    ensures ParsePairs(a + b) == ParsePairs(a) + ParsePairs(b)
    decreases |b|
  {
    if b == [] {
      assert a + b == a;
    } else {
      var b' := b[..|b| - 1];
      var last := b[|b| - 1];
      ParsePairsAppend(a, b');
      assert (a + b)[..|a + b| - 1] == a + b' && (a + b)[|a + b| - 1] == last;
      if ParsePair(last).Some? {
        AppendAssoc(ParsePairs(a), ParsePairs(b'), [ParsePair(last).value]);
      }
    }
  }

  /** Nothing is lost exactly when every pair is accepted. */
  lemma {:induction false} ParsePairsComplete(parts: seq<string>)
    ensures |ParsePairs(parts)| == |parts| <==> forall i :: 0 <= i < |parts| ==> PairAccepted(parts[i])
    decreases |parts|
  {
    if parts != [] {
      var init := parts[..|parts| - 1];
      var last := parts[|parts| - 1];
      ParsePairsComplete(init);
      assert forall i :: 0 <= i < |init| ==> init[i] == parts[i];
      if PairAccepted(last) {
        assert |ParsePairs(parts)| == |ParsePairs(init)| + 1;
      } else {
        assert ParsePairs(parts) == ParsePairs(init);
      }
    }
  }

  /** When every pair is accepted, label `i` is pair `i` read. */
  lemma {:induction false} ParsePairsAccepted(parts: seq<string>)
    requires forall i :: 0 <= i < |parts| ==> PairAccepted(parts[i])
    ensures |ParsePairs(parts)| == |parts|
    ensures forall i :: 0 <= i < |parts| ==> Some(ParsePairs(parts)[i]) == ParsePair(parts[i])
    decreases |parts|
  {
    if parts != [] {
      var init := parts[..|parts| - 1];
      assert forall i :: 0 <= i < |init| ==> init[i] == parts[i];
      ParsePairsAccepted(init);
      var last := parts[|parts| - 1];
      assert PairAccepted(last);
      var r := ParsePairs(parts);
      assert r == ParsePairs(init) + [ParsePair(last).value];
      forall i | 0 <= i < |parts|
        ensures Some(r[i]) == ParsePair(parts[i])
      {
        if i < |init| {
          assert r[i] == ParsePairs(init)[i];
        }
      }
    }
  }

  /** The empty string holds no labels. */
  lemma LabelsOfEmpty()
    ensures LabelsOf("") == []
  {
    assert Split("", ',') == [""];
    assert Split("", '=') == [""];
  }

  /** A label that can be written as `key=value` and read back unchanged. */
  predicate CleanLabel(l: Label)
  {
    HasIdentChar(l.key)
    && ',' !in l.key && '=' !in l.key && '-' !in l.key && '\'' !in l.key
    && ',' !in l.value && '=' !in l.value && '\'' !in l.value
  }

  function FormatLabel(l: Label): string
  {
    l.key + "=" + l.value
  }

  /** Labels written as a comma-separated list of `key=value` pairs. */
  function FormatLabels(ls: seq<Label>): string
  {
    Join(seq(|ls|, i requires 0 <= i < |ls| => FormatLabel(ls[i])), ',')
  }

  lemma ParseFormatLabel(l: Label)
    requires CleanLabel(l)
    ensures ParsePair(FormatLabel(l)) == Some(l)
  {
    SplitJoin([l.key, l.value], '=');
    assert Join([l.key, l.value], '=') == FormatLabel(l);
    LabelKeyReplaceClean(l.key);
    LabelValueReplaceClean(l.value);
  }

  /** Round trip: clean labels written out are read back as they were. */
  lemma LabelsOfFormat(ls: seq<Label>)
    requires forall i :: 0 <= i < |ls| ==> CleanLabel(ls[i])
    ensures LabelsOf(FormatLabels(ls)) == ls
  {
    var fs := seq(|ls|, i requires 0 <= i < |ls| => FormatLabel(ls[i]));
    if ls == [] {
      LabelsOfEmpty();
    } else {
      forall i | 0 <= i < |fs|
        ensures ',' !in fs[i] && PairAccepted(fs[i]) && ParsePair(fs[i]) == Some(ls[i])
      {
        ParseFormatLabel(ls[i]);
      }
      SplitJoin(fs, ',');
      ParsePairsAccepted(fs);
    }
  }

  /** The all-or-nothing test of `descLabels`. */
  predicate AllAccepted(parts: seq<string>)
  {
    forall i :: 0 <= i < |parts| ==> PairAccepted(parts[i])
  }

  /** `descLabels`: the comma-separated parts of a description when every
      one of them is an acceptable pair, none otherwise. */
  method DescLabels(description: string) returns (r: seq<string>)
    ensures AllAccepted(Split(description, ',')) ==> r == Split(description, ',')
    ensures !AllAccepted(Split(description, ',')) ==> r == []
    ensures r != [] <==> |LabelsOf(description)| == |Split(description, ',')|
  {
    var parts := Split(description, ',');
    ParsePairsComplete(parts);
    assert parts[..0] == [];
    for i := 0 to |parts|
      invariant AllAccepted(parts[..i])
    {
      var keyValue := Split(parts[i], '=');
      if |keyValue| != 2 {
        return [];
      }
      if !HasIdentChar(keyValue[0]) {
        return [];
      }
      AllAcceptedSnoc(parts, i);
    }
    assert parts[..|parts|] == parts;
    return parts;
  }

  lemma AllAcceptedSnoc(parts: seq<string>, i: nat)
    requires i < |parts| && AllAccepted(parts[..i]) && PairAccepted(parts[i])
    ensures AllAccepted(parts[..i + 1])
  {
    assert forall j :: 0 <= j < i ==> parts[..i][j] == parts[j];
  }
}
