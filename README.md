# Real-time attack monitor: flow aggregation and response policy

This project models the two stateful parts of a small network-attack monitor.

- **The windowed flow aggregator** (`FeatureStore`, module `Aggregator`). It keeps a table of buckets
  keyed by `(source address, floor(ts / W))`. `IngestPacket` updates one bucket in place.
  `MaybeEmitFeatures` is a rate-limited flush. It turns every bucket of an already-closed window
  into a feature record and deletes it.
- **The detection/response policy** (module `Detection`). `ScoreFeature` turns a feature record
  into a decision. Two optional, opaque models supply the decision's inputs.
  `Monitor.HandleFeature` applies the policy. A strict if/elif/else decides which audit entries are
  written, and whether the source host is blocked. The pure function `Respond` specifies it.

The audit log and the firewall are modelled together as one trace of effects
(`Logged(entry)` or `BlockAttempt(ip)`), in the order they happen. The firewall's answer is an
input boolean.

Design choices:
- Timestamps are integers in the unit of the window length `W`. `W` is a positive integer.
  Python's `//` with a positive divisor and Dafny's `/` are both floor division.
- A missing timestamp or port is `None`. "Falsy" is written out: `None` or `0`.
- The clock (`time.time()`) is the `now` argument of `MaybeEmitFeatures`. The constructor's clock
  reading is the constructor argument `lastEmit`.

A flush takes every window with `win <= floor(now / W) - 1` (feature_store.py:36-39), that is,
every window before the current one, as the comment at feature_store.py:35 says.
`EligibleIffClosed` proves a window is taken exactly when `(win + 1) * W <= now`.

## Model

| member | source | states |
|---|---|---|
| `Aggregator.KeyOf` | feature_store.py:13-15 | the key keeps the source address, and its window index `win` places `ts` in `[win*W, (win+1)*W)` |
| `Aggregator.KeyOfIff` | feature_store.py:13-15 | a packet gets key `(src, k)` exactly when `k*W <= ts < (k+1)*W`, so packets of one source in one interval share one bucket |
| `Aggregator.IngestOne` | feature_store.py:17-28 | one packet: its bucket's count rises by exactly 1 and its bytes by exactly `size`; `first_ts` is set only on a fresh bucket; `last_ts` becomes `ts`; falsy ports and protocols are not added; every other bucket is unchanged |
| `Aggregator.IngestAllBucket` | feature_store.py:17-28 | for any packet stream, a bucket's count, bytes and port/protocol sets are the old values plus that bucket's packets' count, size total and unions; `first_ts` is never overwritten once set; `last_ts` is the most recently ingested packet's timestamp, not the maximum |
| `Aggregator.OrderedBuckets` | feature_store.py:20-22 | if timestamps never decrease, every bucket has both timestamps, with `first_ts <= last_ts <=` the last packet's timestamp |
| `Aggregator.ToFeature` | feature_store.py:40-49 | the record has `window_start = win*W`, the bucket's source, its packet and byte counts, the sizes of its port and protocol sets, and the bucket's duration; window start and source recover the key, so distinct buckets give distinct records |
| `Aggregator.FreshBucketDuration` | feature_store.py:19-22 | a bucket created by ingestion, also one re-created after a flush, has duration >= 0 when its own packets arrive in timestamp order, whatever else the table holds |
| `Aggregator.SurvivingBucketDuration` | feature_store.py:20-22 | a bucket that survives a flush keeps duration >= 0 when none of its later packets is timestamped before its first timestamp |
| `Aggregator.WindowFeature` | feature_store.py:40-49 | built from an empty table with non-decreasing timestamps, a window's record has `packets`, `bytes`, `unique_dst_ports` and `protocol_count` equal to that window's count, byte total and distinct recorded ports/protocols, and `duration >= 0` |
| `Aggregator.Remaining` | feature_store.py:36-53 | after a flush, a bucket remains exactly when its window is after the cutoff, and it remains unchanged; remaining and emitted keys partition the old table |
| `Aggregator.EligibleIffClosed` | feature_store.py:35-39 | a flush at `now` takes a bucket exactly when its window has ended: `(win+1)*W <= now` |
| `Aggregator.FlushedKeysStayAbsent` | feature_store.py:36-53 | after a flush at `now`, packets timestamped at or after `now` never re-create an emitted key, so no bucket is emitted twice |
| `Aggregator.LateArrivalStartsFresh` | feature_store.py:8-24 | a late packet for an already-flushed window starts a fresh bucket holding only that packet |
| `Aggregator.FeatureStore.constructor` | feature_store.py:6-11 | empty table, the given window length and the given initial `last_emit` |
| `Aggregator.FeatureStore.IngestPacket` | feature_store.py:17-28 | the new table is `IngestOne` of the old one; `last_emit` is unchanged |
| `Aggregator.FeatureStore.MaybeEmitFeatures` | feature_store.py:30-55 | if `now - last_emit < W`: returns `[]`, with table and `last_emit` unchanged; otherwise it returns each eligible bucket's record exactly once and nothing else, removes exactly those buckets, keeps the rest unchanged, and sets `last_emit := now` |
| `Detection.ScoreFeature` | infer_service.py:37-55 | a missing model leaves its fields at the defaults (no score, not an anomaly, no label); a loaded model's score and flag, and a loaded classifier's label and probability, are placed in the decision, each computed from the feature vector `[packets, bytes, unique_dst_ports, duration, protocol_count]` |
| `Detection.NoModelsNoEffects` | infer_service.py:40-41 | with no models loaded the decision is the default, and handling it writes and blocks nothing |
| `Detection.Respond` | infer_service.py:58-79 | at most one block attempt; each block attempt is immediately followed by one `AutoBlock` entry whose status matches the firewall's answer; each outcome entry follows a block attempt; the first entry carries the feature and decision; every effect names `feat['src_ip']` |
| `Detection.AnomalyTakesPrecedence` | infer_service.py:64-68 | with `is_anomaly`, whatever the label: exactly `('Anomaly','Detected')`, one block attempt, `('AutoBlock','Success'/'Failed')` |
| `Detection.SupervisedDetection` | infer_service.py:69-75 | otherwise, a label with `prob > 0.85` is logged as `(label,'Detected')`; a block and its outcome entry follow exactly when the lower-cased label is `portscan` or `ddos` |
| `Detection.SupervisedThresholdIsStrict` | infer_service.py:69-79 | with `prob <= 0.85` (including `0.85` and `0.80`) there is no supervised entry and no block, at most the low-confidence entry |
| `Detection.BlockIff` | infer_service.py:64-75 | a block is attempted exactly when `is_anomaly` is set, or the supervised branch fires with an auto-block label |
| `Detection.LowConfidenceIff` | infer_service.py:76-79 | the lone `('LowConfidenceAnomaly','Investigate')` entry appears exactly when neither earlier branch fired and the score is present and `< -0.1` |
| `Detection.SilentIff` | infer_service.py:64-79 | nothing is logged or blocked exactly when no branch fires |
| `Detection.LabelCheckIgnoresCase` | infer_service.py:73 | `PortScan` and `DDoS` match the auto-block set; `BENIGN` does not |
| `Detection.AuditLogAppend` | logger_util.py:19-28 | appending effects appends their audit entries after the earlier ones, which stay in order |
| `Detection.PortscanPayloadScenario` | simulate_attack.py:55-63 | the port-scan payload, flagged as an anomaly, yields `Anomaly/Detected`, a block of `10.0.0.5`, then `AutoBlock` with the firewall's status |
| `Detection.NormalPayloadScenario` | simulate_attack.py:37-45 | the normal payload, scored normal with a 0.80-confidence label, yields no effect |
| `Detection.Monitor.constructor` | infer_service.py:13-24 | the models loaded at start-up, and an empty trace |
| `Detection.Monitor.LogAttack` | logger_util.py:11-28 | appends exactly one entry `(user_id, attack, status, extra)` |
| `Detection.Monitor.BlockIp` | infer_service.py:27-34 | records one block attempt and returns the firewall's answer |
| `Detection.Monitor.HandleFeature` | infer_service.py:58-79 | the trace grows by exactly `Respond(feat, ScoreFeature(feat), answer)`, and the audit log by that response's entries |

## Left out

- The models' numerics (`score_feature`, infer_service.py:42-54, and train_model.py) are left out. The two models are opaque functions of the feature vector. Loading them from disk becomes the `Monitor` constructor's argument.
- `block_ip_linux` (the `iptables` subprocess) is left out. Its success is an input boolean.
- logger_util.py's file handling is left out: reading the whole JSON file, falling back to empty on a corrupt read, rewriting the file, and the wall-clock `timestamp` field. The log is a sequence that is only appended to.
- The `extra or {}` default is left out, because `handle_feature` always passes an `extra`.
- data_collector.py (packet capture, the daemon thread, the feature queue) is left out. It calls `IngestPacket` and then `MaybeEmitFeatures` for each packet. The two methods in sequence cover that.
- gemini_client.py and dashboard_flask.py are left out. They are an HTTP client and a web UI, off the detection path.
- Concurrency is left out. The source has no locking.
- Aggregator.FeatureStore.constructor: the default `window_seconds=5` is not modelled; every caller passes the window length explicitly.
- Detection.Respond: scores and probabilities are exact reals, while the source compares IEEE doubles. The literals `0.85` and `-0.1` are the exact decimals, not their nearest doubles. A score equal to the double nearest -0.1 (slightly below -0.1) fails `score < -0.1` in the source but would pass in the model if given that double's exact value.
- Timestamps and durations are integers. Fractional seconds and float rounding are not modelled.
- The window length must be positive. The source raises `ZeroDivisionError` for `W = 0`, and a negative `W` is never used.
- Aggregator.FeatureStore.MaybeEmitFeatures: does not state the order of the emitted records. The source emits in dict insertion order. The model proves only that each eligible bucket's record appears exactly once.
- Detection.Lower: folds only ASCII letters, where Python's `str.lower` folds all of Unicode. No non-ASCII character lowers to a letter of `portscan` or `ddos`, so the auto-block test matches the same labels.
