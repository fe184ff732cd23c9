/**
  The registry of monitored devices and the older key parser of
  pkg/collector/collector.go. `parseKey` reads a key such as
  `state/counters/out-queue[queue-number=0]/bytes/` into the key with its
  bracket groups removed and one label per group; `parseLabel` reads one
  group.
 */
module Collectors {
  import opened Seqs
  import opened GoStrings
  import opened Telemetry
  import opened Metric
  import opened Path
  import opened Labels
  import opened Targets

  // ---------------------------------------------------------------------
  // Registry

  class Collector {
    var targets: map<string, Target>

    /** `New`: no devices yet. */
    constructor ()
      ensures targets == map[]
    {
      targets := map[];
    }

    /** `AddTarget`: a new device under its host name, replacing an earlier
        one of that name; the other entries are kept. The stored device is
        returned. */
    method AddTarget(conf: TargetConfig, mapping: map<string, map<string, int>>, reconnect: bool) returns (t: Target)
      modifies this
      ensures fresh(t) && fresh(t.metrics) && t.metrics.root == None
      ensures t.devName == conf.hostname && t.paths == conf.paths && t.stringValueMapping == mapping
      ensures t.reconnect == reconnect
      ensures targets == old(targets)[conf.hostname := t]
      ensures conf.hostname in targets && targets[conf.hostname] == t
      ensures forall h :: h in old(targets) && h != conf.hostname ==> h in targets && targets[h] == old(targets)[h]
    {
      var nt := new Target(conf, mapping, reconnect);
      targets := targets[conf.hostname := nt];
      t := targets[conf.hostname];
    }
  }

  // ---------------------------------------------------------------------
  // parseLabel

  /** `parseLabel`: the text before the only `=` as the key, untouched, and
      the text after it, quotes removed, as the value; an error unless the
      text splits into exactly two parts. */
  function ParseLabel(input: string): (r: Option<Label>)
    ensures r.Some? <==> multiset(input)['='] == 1
  {
    var parts := Split(input, '=');
    if |parts| != 2 then None
    else Some(Label(parts[0], RemoveAll(parts[1], "'")))
  }

  /** Deleting every `'` is what the label value rewriting does. */
  lemma {:induction false} RemoveQuotes(s: string)
    ensures RemoveAll(s, "'") == LabelValueReplace(s)
    decreases |s|
  {
    if s != [] {
      RemoveQuotes(s[1..]);
      assert s[..1] == [s[0]];
    }
  }

  /** A parsed label in plain terms: the input is `key=value'` with the
      key free of `=` and the value the rest with its quotes removed. */
  lemma ParseLabelParts(input: string)
    requires ParseLabel(input).Some?
    ensures var l := ParseLabel(input).value;
      '=' !in l.key
      && input[..|l.key|] == l.key && input[|l.key|] == '='
      && l.value == LabelValueReplace(input[|l.key| + 1..])
  {
    var parts := Split(input, '=');
    JoinSplit(input, '=');
    assert input == parts[0] + ['='] + parts[1];
    assert input[|parts[0]| + 1..] == parts[1];
    RemoveQuotes(parts[1]);
  }

  /** Where the newer pair reader accepts a pair, `parseLabel` accepts it
      too and reads the same value; only the key differs, which the newer
      reader rewrites. */
  lemma ParseLabelAgrees(p: string)
    requires PairAccepted(p)
    ensures ParseLabel(p).Some? && ParsePair(p).Some?
    ensures ParseLabel(p).value.value == ParsePair(p).value.value
    ensures ParsePair(p).value.key == LabelKeyReplace(ParseLabel(p).value.key)
  {
    RemoveQuotes(Split(p, '=')[1]);
  }

  // ---------------------------------------------------------------------
  // parseKey

  datatype KeyResult = KeyError | KeyParsed(key: string, labels: seq<Label>)

  /** The labels of the groups, in order, or none when some group fails. */
  function GroupLabels(groups: seq<string>): Option<seq<Label>>
    decreases |groups|
  {
    if groups == [] then Some([])
    else
      match GroupLabels(groups[..|groups| - 1])
      case None => None
      case Some(ls) =>
        match ParseLabel(groups[|groups| - 1])
        case None => None
        case Some(l) => Some(ls + [l])
  }

  /** The groups are read one by one: all must parse, and label `i` is
      group `i` read. */
  lemma {:induction false} GroupLabelsIff(groups: seq<string>)
    ensures GroupLabels(groups).Some? <==> forall i :: 0 <= i < |groups| ==> ParseLabel(groups[i]).Some?
    ensures GroupLabels(groups).Some? ==>
      |GroupLabels(groups).value| == |groups|
      && forall i :: 0 <= i < |groups| ==> Some(GroupLabels(groups).value[i]) == ParseLabel(groups[i])
    decreases |groups|
  {
    if groups != [] {
      var init := groups[..|groups| - 1];
      GroupLabelsIff(init);
      assert forall i :: 0 <= i < |init| ==> init[i] == groups[i];
    }
  }

  /** `parseKey`: the text outside the closed bracket groups as the key,
      and one label per closed group; an error when a group fails. */
  function ParseKeyOf(input: string): KeyResult
  {
    var st := Scan(input);
    match GroupLabels(st.groups)
    case None => KeyError
    case Some(ls) => KeyParsed(st.outside, ls)
  }

  /** The key fails to parse exactly when some closed group does not hold
      exactly one `=`; otherwise there is one label per group and the key
      is the name the path decoder gives the same text. */
  lemma ParseKeyOfIff(input: string)
    ensures ParseKeyOf(input).KeyError? <==>
      exists i :: 0 <= i < |Scan(input).groups| && multiset(Scan(input).groups[i])['='] != 1
    ensures ParseKeyOf(input).KeyParsed? ==>
      |ParseKeyOf(input).labels| == |Scan(input).groups|
      && ParseKeyOf(input).key == Element(input).name
  {
    var st := Scan(input);
    var gs := st.groups;
    GroupLabelsIff(gs);
    if GroupLabels(gs).None? {
      var i :| 0 <= i < |gs| && ParseLabel(gs[i]).None?;
      assert 0 <= i < |Scan(input).groups| && multiset(Scan(input).groups[i])['='] != 1;
      assert ParseKeyOf(input) == KeyError;
    } else {
      assert ParseKeyOf(input) == KeyParsed(st.outside, GroupLabels(gs).value);
      forall i | 0 <= i < |gs|
        ensures multiset(gs[i])['='] == 1
      {
        assert ParseLabel(gs[i]).Some?;
      }
    }
  }

  /** The text of a group that is never closed is dropped. */
  lemma ParseKeyUnterminated(a: string, rest: string)
    requires !Scan(a).within && ']' !in rest
    ensures ParseKeyOf(a + "[" + rest) == ParseKeyOf(a)
  {
    ScanUnterminated(a, rest);
  }

  /** A closed group and the plain text after it: the group's brackets
      and text leave the key, the text after stays, and the group's label
      comes after the earlier ones. */
  lemma ParseKeyGroup(a: string, g: string, b: string)
    requires !Scan(a).within && ']' !in g && '[' !in b
    requires ParseKeyOf(a).KeyParsed? && ParseLabel(g).Some?
    ensures ParseKeyOf(a + "[" + g + "]" + b)
      == KeyParsed(ParseKeyOf(a).key + b, ParseKeyOf(a).labels + [ParseLabel(g).value])
  {
    ScanGroup(a, g);
    ScanPlain(a + "[" + g + "]", b);
    var gs := Scan(a).groups + [g];
    assert gs[..|gs| - 1] == Scan(a).groups;
  }

  /** `parseKey`: a scan that moves characters to the key or to the open
      group, then the groups read into a fixed-size slice of labels. */
  method ParseKey(input: string) returns (r: KeyResult)
    ensures r == ParseKeyOf(input)
  {
    var data := input;
    var key := "";
    var labelStrings: seq<string> := [];
    var withinAngledBraces := false;
    var tmp := "";
    for i := 0 to |data|
      invariant Scan(data[..i]) == ScanState(key, labelStrings, withinAngledBraces, tmp)
    {
      PrefixOfPrefix(data, i + 1, i);
      if !withinAngledBraces {
        if data[i] == '[' {
          withinAngledBraces := true;
          continue;
        }
        key := key + [data[i]];
        continue;
      }
      if data[i] == ']' {
        labelStrings := labelStrings + [tmp];
        withinAngledBraces := false;
        tmp := "";
        continue;
      }
      tmp := tmp + [data[i]];
    }
    assert data[..|data|] == data;
    assert Scan(input).groups == labelStrings && Scan(input).outside == key;
    GroupLabelsIff(labelStrings);
    var retLabels := new Label[|labelStrings|](_ => Label("", ""));
    ghost var parsed: seq<Label> := [];
    for i := 0 to |labelStrings|
      invariant |parsed| == i && parsed == retLabels[..i]
      invariant forall j :: 0 <= j < i ==> ParseLabel(labelStrings[j]) == Some(parsed[j])
    {
      var l := ParseLabel(labelStrings[i]);
      if l.None? {
        assert GroupLabels(labelStrings).None?;
        return KeyError;
      }
      retLabels[i] := l.value;
      parsed := parsed + [l.value];
    }
    assert retLabels[..] == parsed == GroupLabels(labelStrings).value;
    return KeyParsed(key, retLabels[..]);
  }
}
