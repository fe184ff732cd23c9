# Telemetry normalisation of the OpenConfig streaming telemetry exporter

This project models, in Dafny, the core of `pkg/collector` of the
OpenConfig streaming telemetry exporter. Network devices send batches of
key/value pairs whose keys are OpenConfig paths with bracketed
predicates, such as `/interfaces/interface[name='xe-0/0/0']/state/pkts`.
The collector:

- decodes each path into identifiers (segment name, raw predicate);
- stores the values in a tree keyed by those identifiers;
- attaches descriptions to tree nodes;
- walks the tree to produce flat metric records: a `/`-joined name, the
  labels of the predicates on the way down, and the labels of the
  nearest description;
- turns the records into samples (gauge or counter, the value coerced to
  a number, strings looked up in a configured mapping).

Around that sit:

- the per-device loops that subscribe with a backoff, read batches and
  reconnect;
- the registry of devices;
- the older key parser `parseKey`/`parseLabel`;
- three small helpers: the metric and label name rewriting, the decoded
  path memo, and the append-only record buffer.

Files, one module each:

| file | module | models |
|---|---|---|
| `go_strings.dfy` | `GoStrings` | the parts of Go's `strings` and `fmt` the code uses: `Split`, `Join`, `HasPrefix`, `HasSuffix`, `Contains`, `Replace(…, -1)` with an empty replacement, byte-wise string order, `%d` |
| `telemetry.dfy` | `Telemetry` | the value union of a pair, a batch, the configured paths and device, the subscription request |
| `metric.dfy` | `Metric` | records, labels, the three replacers, and `promName`, `describe`, `labelKeys`, `labelValues`, `promLabelKeys`, `promLabelValues` |
| `metric_set.dfy` | `MetricSets` | the append-only record buffer, as a class |
| `path.dfy` | `Path` | the path decoder: `dropSlashPrefixSuffix`, `slashCount`, `pathToIdentifiers`, `pathElementToIdentifier` |
| `labels.dfy` | `Labels` | `labelStringToLabels` and the validator `descLabels` |
| `tree.dfy` | `Tree` | the node tree (`insert`, `setDescription`, `getMetrics` on nodes) and the `tree` wrapper, as a class |
| `id_cache.dfy` | `IdCache` | the memo of decoded paths, as a class |
| `tree_count.dfy` | `TreeCount` | the number of records of the walk: one per node holding a value |
| `target.dfy` | `Targets` | a device: `newTarget`, `subscriptionRequest`, `subscribe`, `process`, `Serve`, `processOpenConfigData`, `collect` |
| `collector.dfy` | `Collectors` | the registry (`New`, `AddTarget`), `parseKey`, `parseLabel` |

Most loops of the source are methods with a loop here, each proved equal
to a specification function. Where the loop reads its input front to
back, that function is written by recursion with the last element split
off, so that the loop invariant reads "the function of the prefix read so
far". There are three exceptions:

- The four copy loops of `metric.go` (`labelKeys`, `labelValues`,
  `promLabelKeys`, `promLabelValues`) are functions whose contracts state
  the result element by element.
- The specification of the sibling sort, `SortedKeys`, takes the least key
  first.
- `subscriptionRequest` is a method whose postcondition states each entry
  of the request.

Lemmas then state what the specification functions mean:

- a well-formed path decodes to the identifiers it was written from;
- a write touches only its own path;
- the walk emits one record per node holding a value, each record built
  by following that node's path;
- the backoff follows 0, 1, 2, 4, 8, 16, 16, … seconds;
- and so on, as the table below states.

The gRPC transport is replaced by oracles. Each subscription attempt of
`subscribe` is one `Round` (stopped, failed, connected). Each receive of
`process` is one `RecvEvent` (stopped, error, batch). `Serve` takes one
`Session` per connection period. A caller passes sequences of these, long
enough for the loops to end.

Where the source and its description disagree, this model follows the
code:

- `getMetrics` uses `labelStringToLabels` for description labels, not the
  all-or-nothing `descLabels`, which nothing calls.
- `collector.go:52` calls `newTarget` with two arguments and `target.go:41`
  calls `newTree` with one, neither matching the declarations. The model
  uses the declared signatures, so `AddTarget` takes the `reconnect` flag
  that `newTarget` needs.

## Model

| member | source | states |
|---|---|---|
| `GoStrings.DecimalValue` | pkg/collector/target.go:38 | the decimal text of a port reads back as that port, so `hostname:port` carries the port exactly |
| `Metric.MetricNameReplace` | pkg/collector/tree.go:13-17 | the name rewriting leaves no `/`, `-` or `'` |
| `Metric.MetricNameReplaceAppend` | pkg/collector/tree.go:13-17 | the rewriting works character by character: rewriting a concatenation is concatenating the rewrites |
| `Metric.MetricNameReplaceLength` | pkg/collector/tree.go:13-17 | only `'` is deleted: the length drops by the number of quotes |
| `Metric.MetricNameReplaceClean` | pkg/collector/tree.go:13-17 | a name free of `/`, `-` and `'` is left as it is |
| `Metric.LabelKeyReplace` | pkg/collector/tree.go:21-24 | the key rewriting leaves no `-` or `'` and shortens by the number of quotes |
| `Metric.LabelKeyReplaceClean` | pkg/collector/tree.go:21-24 | a key free of `-` and `'` is left as it is |
| `Metric.LabelValueReplace` | pkg/collector/tree.go:18-20 | the value rewriting deletes exactly the quotes: same characters, same counts, no `'` |
| `Metric.LabelValueReplaceClean` | pkg/collector/tree.go:18-20 | a value free of `'` is left as it is |
| `Metric.PromName` | pkg/collector/metric.go:19-21 | the exposed name holds none of `/ - '`, and rewriting it again changes nothing |
| `Metric.Describe` | pkg/collector/metric.go:23-25 | the descriptor's name is `promName` (free of `/`, `-` and `'`), its help text the raw name, and its label keys `promLabelKeys`: key `i` is label `i`'s key rewritten |
| `Metric.LabelKeys` | pkg/collector/metric.go:58-65 | one key per label; entry `i` is label `i`'s key |
| `Metric.LabelValues` | pkg/collector/metric.go:38-45 | one value per label; entry `i` is label `i`'s value |
| `Metric.PromLabelKeys` | pkg/collector/metric.go:47-56 | one key per label, in order, each rewritten (`-` to `_`, `'` removed) |
| `Metric.PromLabelValues` | pkg/collector/metric.go:27-36 | one value per label, in order, each with its quotes removed and nothing else changed |
| `MetricSets.MetricSet.constructor` | pkg/collector/metric_set.go:7-11 | a new buffer is empty |
| `MetricSets.MetricSet.Append` | pkg/collector/metric_set.go:13-15 | the buffer grows by exactly the new record, at the end; earlier records are unchanged |
| `MetricSets.MetricSet.Get` | pkg/collector/metric_set.go:17-19 | returns the records in append order and changes nothing |
| `Path.DropSlashPrefixSuffix` | pkg/collector/tree.go:238-251 | the result is the input with at most one leading and one trailing `/` taken off, and nothing else |
| `Path.SlashCount` | pkg/collector/tree.go:253-262 | the count is the number of `/` in the input |
| `Path.DepthFromAppend` | pkg/collector/tree.go:268-279 | the bracket depth is computed left to right: the depth after `a + b` is the depth after `b`, starting from the depth after `a` |
| `Path.DepthNoOpen` | pkg/collector/tree.go:271-279 | without `[` the depth never rises, and a `]` at depth 0 is ignored: from depth 0 it stays 0 |
| `Path.DepthNoBrackets` | pkg/collector/tree.go:268-279 | text without brackets leaves the depth unchanged |
| `Path.SegmentsJoin` | pkg/collector/tree.go:268-300 | joining the segments with `/` gives back the scanned text: no character is lost, and the only splits are the separating `/` |
| `Path.SegmentsCount` | pkg/collector/tree.go:264-303 | there are at most one more segments than slashes |
| `Path.SegmentsLastDepth` | pkg/collector/tree.go:268-295 | the open segment ends at the depth of the whole text |
| `Path.SegmentsHaveNoTopSlash` | pkg/collector/tree.go:281-292 | no segment holds a `/` at bracket depth 0 |
| `Path.SegmentsOfPiece` | pkg/collector/tree.go:281-292 | a text with no `/` at depth 0 is one segment |
| `Path.SegmentsConcat` | pkg/collector/tree.go:281-292 | a `/` at depth 0 splits: the segments of `a/b` are those of `a`, then those of `b` |
| `Path.Scan` | pkg/collector/tree.go:311-330 | the bracket scan keeps `[` out of the name and `]` out of every group |
| `Path.ScanPlain` | pkg/collector/tree.go:311-319 | text without brackets outside a group is appended to the name |
| `Path.ScanInside` | pkg/collector/tree.go:322-329 | text without `]` inside a group is appended to the open group |
| `Path.ScanGroup` | pkg/collector/tree.go:311-330 | a closed group `[g]` adds `g` to the closed groups and nothing to the name |
| `Path.ScanUnterminated` | pkg/collector/tree.go:311-330 | the text of a `[` that is never closed reaches neither the name nor the closed groups |
| `Path.Element` | pkg/collector/tree.go:305-336 | the name has no `[` and the labels no `]` |
| `Path.ElementFormat` | pkg/collector/tree.go:305-336 | `name[labels]` (or `name` for no labels) reads back as that identifier |
| `Path.PathElementToIdentifier` | pkg/collector/tree.go:305-336 | the loop computes `Element`: the characters outside brackets as the name, the last closed group as the labels |
| `Path.Kept` | pkg/collector/tree.go:297-300 | only a final empty segment is dropped |
| `Path.Elements` | pkg/collector/tree.go:283-299 | one identifier per kept segment, in order |
| `Path.Decode` | pkg/collector/tree.go:264-303 | the empty path has no identifiers; there are at most one more identifiers than slashes; no name holds `[` |
| `Path.DecodeEncode` | pkg/collector/tree.go:264-336 | round trip: well-formed identifiers written as `a/b[l]/c` decode back to themselves |
| `Path.ElementsFormatted` | pkg/collector/tree.go:283-299 | well-formed identifiers, each written `name[labels]`, are read back one by one as themselves |
| `Path.EncodeEnds` | pkg/collector/tree.go:238-251 | such a written path neither starts nor ends with `/` |
| `Path.DropBothSlashes` | pkg/collector/tree.go:238-251 | a path written `/x/` loses exactly the two outer slashes |
| `Path.DecodeEncodeSlashed` | pkg/collector/tree.go:238-303 | round trip with the slashes on both ends, as devices send them |
| `Path.PathToIdentifiers` | pkg/collector/tree.go:264-303 | the depth-counting loop computes `Decode` (its precondition: the input is not exactly `/`) |
| `Path.DecodeFromPieces` | pkg/collector/tree.go:297-302 | after the loop, the open piece is turned into an identifier only when it is not empty, and the result is `Decode` of the path |
| `Labels.HasIdentCharIff` | pkg/collector/tree.go:12 | the unanchored key pattern matches exactly when some character is a letter or `_` |
| `Labels.PairAcceptedIff` | pkg/collector/tree.go:220-227 | a pair is kept exactly when it holds one `=` and its key matches the pattern |
| `Labels.ParsePair` | pkg/collector/tree.go:220-232 | a pair is read exactly when accepted; its key has no `-` or `'`, its value no `'` |
| `Labels.ParsePairs` | pkg/collector/tree.go:219-233 | never more labels than pairs, each rewritten |
| `Labels.ParsePairsAppend` | pkg/collector/tree.go:219-233 | pairs are read one by one: the labels of `a + b` are those of `a`, then those of `b` |
| `Labels.ParsePairsComplete` | pkg/collector/tree.go:219-233 | no pair is dropped exactly when every pair is accepted |
| `Labels.ParsePairsAccepted` | pkg/collector/tree.go:219-233 | when every pair is accepted, label `i` is pair `i` read, so order is kept |
| `Labels.LabelStringToLabels` | pkg/collector/tree.go:217-236 | the loop computes the specification `LabelsOf` |
| `Labels.LabelsOfEmpty` | pkg/collector/tree.go:217-236 | the empty string yields no labels |
| `Labels.ParseFormatLabel` | pkg/collector/tree.go:220-232 | a clean label written `key=value` reads back as itself |
| `Labels.LabelsOfFormat` | pkg/collector/tree.go:217-236 | round trip: clean labels written `k1=v1,k2=v2` read back as themselves, in order |
| `Labels.DescLabels` | pkg/collector/tree.go:136-150 | all or nothing: the pairs when every pair is accepted, none otherwise; non-empty exactly when `labelStringToLabels` drops no pair |
| `Tree.NodeInsert` | pkg/collector/tree.go:203-215 | a write keeps the node's identifier, description and every existing child key |
| `Tree.NodeSetDescription` | pkg/collector/tree.go:123-134 | a description write keeps the node's identifier, value, value flag and every existing child key |
| `Tree.InsertOffPath` | pkg/collector/tree.go:203-215 | nodes off the written path are unchanged |
| `Tree.InsertPaths` | pkg/collector/tree.go:203-215 | a node exists after the write exactly when it existed before or lies on the written path, so only missing nodes are created |
| `Tree.InsertAttrs` | pkg/collector/tree.go:203-215 | the node at the path holds a value, the written one, and keeps its description; every other node keeps its value flag, value and description |
| `Tree.InsertTwice` | pkg/collector/tree.go:203-215 | writing a path twice is writing it once with the second value; no nodes are added the second time |
| `Tree.InsertWellKeyed` | pkg/collector/tree.go:203-215 | each child stays stored under its own identifier |
| `Tree.NewNodeEmpty` | pkg/collector/tree.go:49-54 | a new node holds no value and no description anywhere |
| `Tree.SetDescriptionOffPath` | pkg/collector/tree.go:123-134 | nodes off the path are unchanged |
| `Tree.SetDescriptionPaths` | pkg/collector/tree.go:123-134 | only missing nodes on the path are created |
| `Tree.SetDescriptionAttrs` | pkg/collector/tree.go:123-134 | only the description at the path changes; the value flag and value never do |
| `Tree.SetDescriptionWellKeyed` | pkg/collector/tree.go:123-134 | each child stays stored under its own identifier |
| `Tree.IdLessTotal` | pkg/collector/tree.go:184-186 | the sibling order ranks any two distinct identifiers |
| `Tree.IdLessAsymmetric` | pkg/collector/tree.go:184-186 | the sibling order is strict |
| `Tree.IdLessTransitive` | pkg/collector/tree.go:184-186 | the sibling order is transitive |
| `Tree.SortedKeys` | pkg/collector/tree.go:177-186 | the sorted keys list each child key exactly once |
| `Tree.SortedKeysAscending` | pkg/collector/tree.go:184-186 | the keys are in strictly ascending order |
| `Tree.SortedKeysNames` | pkg/collector/tree.go:184-186 | children are visited in non-decreasing name order, which is all the source promises |
| `Tree.LeastOf` | pkg/collector/tree.go:184-186 | the loop finds the least key of a non-empty set |
| `Tree.SortedKeysOf` | pkg/collector/tree.go:177-186 | the loop lists the keys in sorted order |
| `Tree.EmitChildrenIncludes` | pkg/collector/tree.go:198-200 | every record of a child's walk is among the records of the children |
| `Tree.EmitChildrenMember` | pkg/collector/tree.go:198-200 | every record of the children comes from one child's walk |
| `Tree.EmitComplete` | pkg/collector/tree.go:152-201 | every node holding a value is emitted, with the record its path describes |
| `Tree.EmitSound` | pkg/collector/tree.go:152-201 | every emitted record is the record of some path to a node holding a value |
| `Tree.EmitIff` | pkg/collector/tree.go:152-201 | a record is emitted exactly when some path leads to it: the name joined on the way down, the ancestors' labels from root to leaf, then the labels of the nearest description |
| `TreeCount.EmitPositions` | pkg/collector/tree.go:152-201 | one record per node holding a value: the positions of the walk's records and the paths to the nodes holding a value correspond one to one, record `i` being the record of path `i`; this holds even when two records are equal |
| `TreeCount.EmitPathsWalk` | pkg/collector/tree.go:188-200 | record `i` of the walk is the record of the node at path `i` |
| `TreeCount.EmitPathsDistinct` | pkg/collector/tree.go:177-200 | no node is visited twice: the paths of the records are pairwise distinct |
| `TreeCount.EmitPathsComplete` | pkg/collector/tree.go:188-200 | every node holding a value is visited: its path is among the paths of the records |
| `Tree.Names` | pkg/collector/tree.go:153-157 | one segment name per identifier on the path |
| `Tree.WalkName` | pkg/collector/tree.go:153-157 | below a named node, the record name is the names on the way joined with `/` |
| `Tree.RootWalkName` | pkg/collector/tree.go:92-157 | from the unnamed root, when the first identifier's name is not empty, the record name is the path's names joined with `/` |
| `Tree.RootWalkEmptyName` | pkg/collector/tree.go:153-157 | a first identifier with an empty name, as in `//x` or `[a=b]/x`, adds nothing to the record name, not even a `/`: the name is the remaining names joined with `/` |
| `Tree.WalkInsert` | pkg/collector/tree.go:203-215 | after a write, the record at the written path holds the written value |
| `Tree.InsertedIsEmitted` | pkg/collector/tree.go:79-101 | end to end: after a write at a path whose first name is not empty, the read walk emits a record named by the path's names joined with `/` and holding the value |
| `Tree.NodeLabels` | pkg/collector/tree.go:159-171 | the merge loops give the ancestors' labels followed by the node's own |
| `Tree.NodeDescriptionLabels` | pkg/collector/tree.go:173-175 | a node's description replaces the inherited description labels |
| `Tree.NodeGetMetrics` | pkg/collector/tree.go:152-201 | the recursive walk appends exactly the records of `Emit`, in pre-order, after those already in the buffer |
| `Tree.NodeEmit` | pkg/collector/tree.go:188-200 | once name, labels and sorted keys are known, the node's own record (when it holds a value) and then its children's walks are appended: exactly `Emit` of the node |
| `Tree.ChildrenGetMetrics` | pkg/collector/tree.go:198-200 | the loop over the sorted keys appends each child's walk in key order, which is `EmitChildren` |
| `Tree.Tree.constructor` | pkg/collector/tree.go:45-47 | a new tree has no root and is well formed |
| `Tree.Tree.Insert` | pkg/collector/tree.go:79-90 | the root is created when missing, then the decoded path is written |
| `Tree.Tree.SetDescription` | pkg/collector/tree.go:67-77 | the root is created when missing, then the description is written at the decoded path |
| `Tree.Tree.GetMetrics` | pkg/collector/tree.go:92-101 | no records before the first write; afterwards exactly the walk's records from the unnamed root |
| `IdCache.Find` | pkg/collector/id_cache.go:16-21 | a path has an entry exactly when it was set, and the entry is what was stored |
| `IdCache.IdCache.constructor` | pkg/collector/id_cache.go:10-14 | a new cache is empty |
| `IdCache.IdCache.Lookup` | pkg/collector/id_cache.go:16-21 | answers what is stored for the path, nil when nothing is |
| `IdCache.IdCache.Set` | pkg/collector/id_cache.go:23-28 | afterwards the path answers the new identifiers and every other path answers as before |
| `IdCache.FindEmpty` | pkg/collector/id_cache.go:10-21 | a new cache answers nil for every path |
| `IdCache.FindAfterSet` | pkg/collector/id_cache.go:16-28 | a lookup after a set returns what was set; other paths are unaffected |
| `IdCache.SetOverwrites` | pkg/collector/id_cache.go:27 | setting a path twice keeps only the second entry |
| `Targets.NextBackoff` | pkg/collector/target.go:95-105 | after a failure the backoff becomes 1s when it was 0, never shortens, and stays put once at the 16s maximum |
| `Targets.BackoffAt` | pkg/collector/target.go:80-105 | no sleep before the first attempt, and at least a second before every later one |
| `Targets.BackoffMonotone` | pkg/collector/target.go:80-105 | the sleep never shortens from one attempt to a later one |
| `Targets.BackoffClosedForm` | pkg/collector/target.go:17-106 | the sleep before attempt `k` is 0, then 1s, 2s, 4s, 8s, and 16s from the fifth retry on |
| `Targets.BackoffBounded` | pkg/collector/target.go:17-105 | the sleep is always one of 0, 1, 2, 4, 8, 16 seconds and never above the maximum |
| `Targets.ScheduleAt` | pkg/collector/target.go:80-105 | the sleeps of the first `n` attempts are, one by one, the backoff before each attempt |
| `Targets.SubscribeEnd` | pkg/collector/target.go:82-109 | `subscribe` ends at the first attempt that is stopped or connects; every earlier attempt failed |
| `Targets.ProcessEnd` | pkg/collector/target.go:115-135 | `process` ends at the first stop, receive error or batch that reaches the read limit |
| `Targets.ProcessReadLimit` | pkg/collector/target.go:131-134 | with a positive read limit, the loop ends by the limit-th batch at the latest |
| `Targets.ProcessUnlimited` | pkg/collector/target.go:115-135 | without a read limit, only a stop or a receive error ends the loop; every event before it is a batch |
| `Targets.ServeEnd` | pkg/collector/target.go:142-153 | `Serve` ends at the first session whose `subscribe` was stopped or, with reconnecting off, at the first session |
| `Targets.NoReconnectOneSession` | pkg/collector/target.go:150-152 | without reconnecting, `Serve` ends after the first session |
| `Targets.ReconnectEndsOnStop` | pkg/collector/target.go:142-153 | with reconnecting on, `Serve` ends exactly at the first stopped subscription |
| `Targets.PrefixAfter` | pkg/collector/target.go:159-174 | only a `__prefix__` pair changes the prefix: a nil value resets it to empty, a string value replaces it, any other kind leaves it |
| `Targets.SkippedIff` | pkg/collector/target.go:159-183 | a pair leaves the tree alone exactly when its key starts with `__` (which covers `__prefix__`) or it is a `state/description` pair with a nil value |
| `Targets.DescriptionOf` | pkg/collector/target.go:180-188 | a pair carries a description exactly when its key ends in `state/description` and its value is a string, and the description is that string |
| `Targets.DescriptionPath` | pkg/collector/target.go:187 | removing `state/description` never lengthens the path, and a path without it is kept |
| `Targets.DescriptionPathStrip` | pkg/collector/target.go:187 | the description of `x/state/description` goes to `x/` when `x` holds no other `state/description` |
| `Targets.RunningPrefixAppend` | pkg/collector/target.go:157-174 | the prefix is threaded left to right through the pairs |
| `Targets.ApplyEntry` | pkg/collector/target.go:159-191 | a `__prefix__` pair, any other `__` pair and a nil description pair leave the tree alone; any other pair leaves a tree with a root |
| `Targets.ReservedBatchIgnored` | pkg/collector/target.go:159-178 | a batch of `__` keys only changes the prefix, never the tree |
| `Targets.ApplyBatchAppend` | pkg/collector/target.go:157-192 | routing `a + b` is routing `a`, then routing `b` under the prefix left by `a` |
| `Targets.EntryStored` | pkg/collector/target.go:180-191 | a routed pair's value is stored at `prefix+key`; a string description is also set at that path with every `state/description` removed |
| `Targets.KindOf` | pkg/collector/target.go:204-207 | a counter exactly when the name mentions `counters`, a gauge otherwise |
| `Targets.Coerce` | pkg/collector/target.go:209-232 | every non-string value gives a number (a bool 1 or 0); a string gives one exactly when the mapping has the `/`-rooted name and the string under it, and then the mapped number |
| `Targets.SampleOfIff` | pkg/collector/target.go:199-232 | a record yields a sample exactly when its value is set and, for a string, both mapping lookups hit; counter exactly when the name mentions `counters`; a bool gives 1 or 0 |
| `Targets.SamplesFromRecords` | pkg/collector/target.go:199-238 | never more samples than records, and each sample comes from a record |
| `Targets.SamplesComplete` | pkg/collector/target.go:199-238 | every record that yields a sample contributes it |
| `Targets.Target.constructor` | pkg/collector/target.go:36-47 | the address is `hostname:port`, the tree is empty, there is no read limit, and the configuration is copied |
| `Targets.Target.NewSubscriptionRequest` | pkg/collector/target.go:57-77 | no record or time limit and no end-of-sync marker; one entry per configured path, in order, copying the path, the suppression flag and both intervals |
| `Targets.Target.Subscribe` | pkg/collector/target.go:79-110 | returns the round that ended the loop, the stream unless stopped, and the sleeps taken, which follow the backoff schedule |
| `Targets.Target.ProcessOpenConfigData` | pkg/collector/target.go:156-193 | the tree after the batch is the specification `ApplyBatch` from an empty prefix; the configuration fields are unchanged |
| `Targets.Target.Process` | pkg/collector/target.go:112-136 | ends at `ProcessEnd`; a receive error, which ends the loop, leaves a fresh empty tree; otherwise the batches read are applied in order to the same tree |
| `Targets.Target.Receive` | pkg/collector/target.go:115-135 | the read loop ends at `ProcessEnd` and applies the batches read before it, in order, to the tree in place |
| `Targets.Target.ProcessBatch` | pkg/collector/target.go:129-131 | one batch read after the earlier events extends the applied prefix by that batch |
| `Targets.Target.Serve` | pkg/collector/target.go:138-154 | ends at `ServeEnd`; the tree is the effect of the sessions up to and including it, in order |
| `Targets.Target.ServeStep` | pkg/collector/target.go:142-153 | one pass of the loop turns the effect of the first `i` sessions into that of the first `i + 1`, and reports whether the subscription was stopped |
| `Targets.Target.ServeSession` | pkg/collector/target.go:143-148 | subscribe, then process unless stopped: the tree becomes the session's effect, and the result says whether the subscription was stopped |
| `Targets.Target.Collect` | pkg/collector/target.go:195-239 | the samples are those of the tree's records, in record order |
| `Targets.Target.CollectRecords` | pkg/collector/target.go:199-238 | the filtering loop computes the specification `Samples` |
| `Collectors.Collector.constructor` | pkg/collector/collector.go:20-25 | a new registry has no devices |
| `Collectors.Collector.AddTarget` | pkg/collector/collector.go:49-55 | the new device is stored under its host name, replacing an earlier one, and returned; other entries are unchanged |
| `Collectors.ParseLabel` | pkg/collector/collector.go:118-129 | a group is read exactly when it holds one `=` |
| `Collectors.RemoveQuotes` | pkg/collector/collector.go:127 | removing `'` by replacement is the label value rewriting |
| `Collectors.ParseLabelParts` | pkg/collector/collector.go:118-129 | the key is the text before the `=`, untouched, so `queue-number` stays; the value is the rest with its quotes removed |
| `Collectors.ParseLabelAgrees` | pkg/collector/collector.go:118-129 | where `labelStringToLabels` accepts a pair, `parseLabel` reads the same value and a key that differs only by the key rewriting |
| `Collectors.GroupLabelsIff` | pkg/collector/collector.go:104-112 | all groups must parse, and label `i` is group `i` read |
| `Collectors.ParseKeyOfIff` | pkg/collector/collector.go:75-129 | fails exactly when some closed group does not hold one `=`; otherwise one label per closed group, and the key is the text outside the groups |
| `Collectors.ParseKeyUnterminated` | pkg/collector/collector.go:83-102 | the text of an unterminated `[` is dropped |
| `Collectors.ParseKeyGroup` | pkg/collector/collector.go:83-114 | a closed group leaves the key, brackets included, and adds its label after the earlier ones; the text after it stays in the key |
| `Collectors.ParseKey` | pkg/collector/collector.go:75-116 | the scanning loop and the label loop compute `ParseKeyOf` |

## Left out

- The gRPC transport (dialing, `TelemetrySubscribe`, `Recv`, closing) is replaced by the oracle sequences above. The stop channel is an oracle entry too (`StopRequested`, `Stop`).
- `newTarget` never creates the stop channel (`target.go:36-47`), so it stays nil. A receive from a nil channel never fires, so the stop branches at `target.go:84` and `target.go:117` are unreachable in this source, and `stop` blocks forever (`target.go:50`). The `StopRequested` and `Stop` entries, and `Targets.ReconnectEndsOnStop`, describe what these loops do once a channel is supplied; with this source as written, only failures, receive errors and the read limit occur.
- `Targets.Target.Subscribe`, `Targets.Target.Process`, `Targets.Target.Serve`: these require oracle sequences in which the loop ends. An endless stream of failures or batches has no model. Batches must be routable: no write path is exactly `/`.
- `Targets.Target.Serve` does not model the request built for each attempt, which depends only on the configuration (see `NewSubscriptionRequest`).
- Locks and goroutines: the read/write mutexes of the tree, the cache and the registry, the fan-out in `Collector.Collect` and its wait group. Every operation here runs alone.
- `Collector.Stop` and `Collector.Collect` only forward to each device, over channels and goroutines. `Collector.Dump` returns the dump of one device in random map order. `Collector.Describe` has an empty body. The model keeps the per-device parts (`Target.Collect`), not the fan-out. The registry's `cfg` field is never read by the core and is not modelled.
- The Prometheus library (`NewDesc`, `MustNewConstMetric`, the channel send) is not modelled. A sample carries the record's name, kind, value and rewritten label values. In this source the record's descriptor field is never set, so the descriptor passed on is nil. `Metric.Describe` gives the descriptor the record would have.
- Converting integers to float64 rounds large values. Here values are unbounded integers and reals, and the conversion is exact.
- `log.Fatalf` on an unknown value kind cannot happen: the value union is closed. Log messages are not modelled.
- The debug dumps of the tree and of a device print in Go's `%v` format and in random map order, so they are not modelled.
- Configuration loading and the program's startup are not modelled. A configured path's suppression flag is a plain bool here: `subscriptionRequest` dereferences it, and a nil flag would panic.
- Strings are ASCII. `dropSlashPrefixSuffix` slices runes by a byte length, which only agrees for ASCII.
- `Path.PathToIdentifiers`, `Tree.Tree.Insert`, `Tree.Tree.SetDescription`: the input exactly `/` panics in the source, so it is excluded by a precondition.
- `Tree.Tree.Insert`, `Tree.Tree.SetDescription`: nodes are values, and a write returns the new tree. Sharing of node objects between trees is not captured; the source never shares them.
- `Tree.NodeGetMetrics`: sibling order is one the source may produce: sorted by name, ties broken by the raw labels. The source's unstable sort over random map order leaves ties in any order. The lemmas about order claim only non-decreasing names.
- The memo of decoded paths is not wired into the tree in this source, and is modelled on its own.

