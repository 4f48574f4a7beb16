/**
  The detection and response policy of infer_service.py.

  A feature record is scored by two optional, opaque models into a decision;
  the decision then selects, by a strict if/elif/else precedence, which audit
  entries are appended and whether the source host is blocked.  The audit log
  and the firewall are modelled together as one trace of effects, in the order
  in which they happen.
*/
module Detection {
  import opened Wrappers
  import opened Aggregator

  /** Output of the unsupervised model: its decision function and whether it
      predicts the outlier class. */
  datatype IsoVerdict = IsoVerdict(score: real, isAnomaly: bool)

  datatype SupervisedLabel = SupervisedLabel(name: string, prob: real)

  datatype Decision = Decision(
    anomalyScore: Option<real>,
    isAnomaly: bool,
    supervisedLabel: Option<SupervisedLabel>)

  /** The models loaded at start-up; either may be missing. Each sees only
      the feature vector. */
  datatype Scorers = Scorers(
    iso: Option<seq<int> -> IsoVerdict>,
    rf: Option<seq<int> -> SupervisedLabel>)

  /** The `extra` payload of an audit entry. */
  datatype Extra = FeatureContext(feat: FeatureRecord, dec: Decision) | BlockResult(blocked: bool)

  datatype AuditEntry = AuditEntry(userId: string, attack: string, status: string, extra: Extra)

  /** What handling a feature does to the outside world. */
  datatype Effect = Logged(entry: AuditEntry) | BlockAttempt(ip: string)

  const SupervisedThreshold: real := 0.85
  const LowConfidenceThreshold: real := -0.1
  const AutoBlockLabels: set<string> := {"portscan", "ddos"}

  // ---------------------------------------------------------------------------
  // Scoring

  /** The model input, in the fixed order the models were trained on. */
  function FeatureVector(f: FeatureRecord): seq<int>
  {
    [f.packets, f.bytes, f.uniqueDstPorts, f.duration, f.protocolCount]
  }

  /** The decision for a feature record.  A missing model leaves its fields at
      the defaults: no score, not an anomaly, no label; a loaded model's score,
      flag and label, computed from the feature vector, end up in the decision. */
  function ScoreFeature(f: FeatureRecord, s: Scorers): (d: Decision)
    ensures s.iso.None? ==> d.anomalyScore.None? && !d.isAnomaly
    ensures s.rf.None? ==> d.supervisedLabel.None?
    ensures d.isAnomaly ==> s.iso.Some? && s.iso.value(FeatureVector(f)).isAnomaly
    ensures d.supervisedLabel.Some? ==> s.rf.Some? && d.supervisedLabel.value == s.rf.value(FeatureVector(f))
    ensures s.iso.Some? ==> d.anomalyScore == Some(s.iso.value(FeatureVector(f)).score)
                            && d.isAnomaly == s.iso.value(FeatureVector(f)).isAnomaly
    ensures s.rf.Some? ==> d.supervisedLabel == Some(s.rf.value(FeatureVector(f)))
  {
    var x := FeatureVector(f);
    var d0 := Decision(None, false, None);
    var d1 := if s.iso.Some? then
                var v := s.iso.value(x); d0.(anomalyScore := Some(v.score), isAnomaly := v.isAnomaly)
              else d0;
    if s.rf.Some? then d1.(supervisedLabel := Some(s.rf.value(x))) else d1
  }

  // ---------------------------------------------------------------------------
  // Policy

  /** ASCII lower-casing of one character. */
  function LowerChar(c: char): char
  {
    if 'A' <= c <= 'Z' then (c as int + 32) as char else c
  }

  function Lower(s: string): string
  {
    seq(|s|, i requires 0 <= i < |s| => LowerChar(s[i]))
  }

  /** Whether the supervised branch fires: a label with confidence strictly
      above the threshold. */
  predicate SupervisedFires(dec: Decision)
  {
    dec.supervisedLabel.Some? && dec.supervisedLabel.value.prob > SupervisedThreshold
  }

  predicate LowConfidence(dec: Decision)
  {
    dec.anomalyScore.Some? && dec.anomalyScore.value < LowConfidenceThreshold
  }

  function AutoBlockEntry(src: string, blocked: bool): AuditEntry
  {
    AuditEntry(src, "AutoBlock", if blocked then "Success" else "Failed", BlockResult(blocked))
  }

  function SubjectOf(e: Effect): string
  {
    if e.Logged? then e.entry.userId else e.ip
  }

  /** Everything handling `feat` under `dec` does, when a block attempt would
      report `blocked`.  At most one block is attempted; every block attempt
      is immediately followed by exactly one outcome entry that reports it;
      every outcome entry follows a block attempt; the first effect, if any,
      is a detection entry carrying the feature and decision; every effect
      concerns the feature's source address. */
  function Respond(feat: FeatureRecord, dec: Decision, blocked: bool): (effects: seq<Effect>)
    ensures |effects| <= 3
    ensures forall i :: 0 <= i < |effects| ==> SubjectOf(effects[i]) == feat.srcIp
    ensures forall i, j :: 0 <= i < j < |effects| && effects[i].BlockAttempt? ==> !effects[j].BlockAttempt?
    ensures forall i :: 0 <= i < |effects| && effects[i].BlockAttempt? ==>
              i + 1 < |effects| && effects[i + 1] == Logged(AutoBlockEntry(feat.srcIp, blocked))
    ensures forall i :: 0 <= i < |effects| && effects[i].Logged? && effects[i].entry.extra.BlockResult? ==>
              0 < i && effects[i - 1].BlockAttempt?
    ensures |effects| > 0 ==> effects[0].Logged? && effects[0].entry.extra == FeatureContext(feat, dec)
  {
    var src := feat.srcIp;
    var ctx := FeatureContext(feat, dec);
    if dec.isAnomaly then
      [Logged(AuditEntry(src, "Anomaly", "Detected", ctx)), BlockAttempt(src), Logged(AutoBlockEntry(src, blocked))]
    else if SupervisedFires(dec) then
      var lab := dec.supervisedLabel.value.name;
      [Logged(AuditEntry(src, lab, "Detected", ctx))]
      + (if Lower(lab) in AutoBlockLabels then [BlockAttempt(src), Logged(AutoBlockEntry(src, blocked))] else [])
    else if LowConfidence(dec) then
      [Logged(AuditEntry(src, "LowConfidenceAnomaly", "Investigate", ctx))]
    else
      []
  }

  /** The audit entries of a trace, in order. */
  function AuditLog(effects: seq<Effect>): seq<AuditEntry>
  {
    if |effects| == 0 then []
    else AuditLog(effects[..|effects| - 1]) + (if effects[|effects| - 1].Logged? then [effects[|effects| - 1].entry] else [])
  }

  // ---------------------------------------------------------------------------
  // Properties of the policy

  /** An anomaly flag wins over any supervised label or score: one detection
      entry, one block attempt, one outcome entry. */
  lemma AnomalyTakesPrecedence(feat: FeatureRecord, dec: Decision, blocked: bool)
    requires dec.isAnomaly
    ensures Respond(feat, dec, blocked) ==
              [ Logged(AuditEntry(feat.srcIp, "Anomaly", "Detected", FeatureContext(feat, dec)))
              , BlockAttempt(feat.srcIp)
              , Logged(AuditEntry(feat.srcIp, "AutoBlock", if blocked then "Success" else "Failed", BlockResult(blocked))) ]
  {
  }

  /** Without an anomaly flag, a label whose confidence is strictly above 0.85
      is logged as detected; a block (and its outcome entry) follows exactly
      when the lower-cased label is "portscan" or "ddos". */
  lemma SupervisedDetection(feat: FeatureRecord, dec: Decision, blocked: bool)
    requires !dec.isAnomaly && dec.supervisedLabel.Some? && dec.supervisedLabel.value.prob > 0.85
    ensures var effects := Respond(feat, dec, blocked);
            var lab := dec.supervisedLabel.value.name;
            && effects[0] == Logged(AuditEntry(feat.srcIp, lab, "Detected", FeatureContext(feat, dec)))
            && (BlockAttempt(feat.srcIp) in effects <==> Lower(lab) == "portscan" || Lower(lab) == "ddos")
            && |effects| == (if Lower(lab) in AutoBlockLabels then 3 else 1)
  {
  }

  /** The confidence comparison is strict: at 0.85 or below no supervised
      entry is written and nothing is blocked; at most the low-confidence
      entry can appear. */
  lemma SupervisedThresholdIsStrict(feat: FeatureRecord, dec: Decision, blocked: bool)
    requires !dec.isAnomaly && dec.supervisedLabel.Some? && dec.supervisedLabel.value.prob <= 0.85
    ensures var effects := Respond(feat, dec, blocked);
            && |effects| <= 1
            && forall e :: e in effects ==> e.Logged? && e.entry.attack == "LowConfidenceAnomaly"
  {
  }

  /** A block is attempted exactly when the anomaly flag is set, or the
      supervised branch fires with an auto-block label. */
  lemma BlockIff(feat: FeatureRecord, dec: Decision, blocked: bool)
    ensures BlockAttempt(feat.srcIp) in Respond(feat, dec, blocked) <==>
              dec.isAnomaly || (SupervisedFires(dec) && Lower(dec.supervisedLabel.value.name) in AutoBlockLabels)
  {
  }

  /** The low-confidence entry is written exactly when neither earlier branch
      fired and the score is below -0.1; it comes alone and without a block. */
  lemma LowConfidenceIff(feat: FeatureRecord, dec: Decision, blocked: bool)
    ensures var effects := Respond(feat, dec, blocked);
            (effects == [Logged(AuditEntry(feat.srcIp, "LowConfidenceAnomaly", "Investigate", FeatureContext(feat, dec)))])
            <==> !dec.isAnomaly && !SupervisedFires(dec) && dec.anomalyScore.Some? && dec.anomalyScore.value < -0.1
  {
  }

  /** Nothing is logged or blocked exactly when no branch fires. */
  lemma SilentIff(feat: FeatureRecord, dec: Decision, blocked: bool)
    ensures Respond(feat, dec, blocked) == [] <==> !dec.isAnomaly && !SupervisedFires(dec) && !LowConfidence(dec)
  {
  }

  /** With no model loaded the default decision triggers nothing. */
  lemma NoModelsNoEffects(feat: FeatureRecord, blocked: bool)
    ensures ScoreFeature(feat, Scorers(None, None)) == Decision(None, false, None)
    ensures Respond(feat, ScoreFeature(feat, Scorers(None, None)), blocked) == []
  {
  }

  /** The label check ignores case. */
  lemma LabelCheckIgnoresCase()
    ensures Lower("PortScan") in AutoBlockLabels && Lower("DDoS") in AutoBlockLabels
    ensures Lower("BENIGN") !in AutoBlockLabels
  {
    assert Lower("PortScan") == "portscan";
    assert Lower("DDoS") == "ddos";
    assert Lower("BENIGN") == "benign";
  }

  /** Appending effects appends their audit entries. */
  lemma {:induction false} AuditLogAppend(a: seq<Effect>, b: seq<Effect>)
    ensures AuditLog(a + b) == AuditLog(a) + AuditLog(b)
  {
    if |b| > 0 {
      assert (a + b)[..|a + b| - 1] == a + b[..|b| - 1];
      AuditLogAppend(a, b[..|b| - 1]);
    } else {
      assert a + b == a;
    }
  }

  /** The port-scan-like payload of the simulation harness (10.0.0.5: 120
      packets, 40000 bytes, 60 ports, 2 s, 1 protocol), flagged by the
      unsupervised model: an anomaly entry, one block, one outcome entry. */
  lemma PortscanPayloadScenario(blocked: bool)
    ensures var feat := FeatureRecord(0, "10.0.0.5", 120, 40000, 60, 2, 1);
            var s := Scorers(Some((x: seq<int>) => IsoVerdict(-0.2, true)), None);
            var log := AuditLog(Respond(feat, ScoreFeature(feat, s), blocked));
            && BlockAttempt("10.0.0.5") in Respond(feat, ScoreFeature(feat, s), blocked)
            && |log| == 2
            && log[0].attack == "Anomaly" && log[0].status == "Detected"
            && log[1].attack == "AutoBlock" && log[1].status == (if blocked then "Success" else "Failed")
  {
    var feat := FeatureRecord(0, "10.0.0.5", 120, 40000, 60, 2, 1);
    var s := Scorers(Some((x: seq<int>) => IsoVerdict(-0.2, true)), None);
    var effects := Respond(feat, ScoreFeature(feat, s), blocked);
    assert effects[..1][..0] == [];
    assert AuditLog(effects[..1]) == [effects[0].entry];
    assert effects[..2][..1] == effects[..1];
    assert AuditLog(effects[..2]) == [effects[0].entry];
    assert effects[..|effects| - 1] == effects[..2];
  }

  /** The normal-traffic payload of the simulation harness (192.168.1.10),
      scored as normal and labelled with confidence 0.80, produces nothing. */
  lemma NormalPayloadScenario(blocked: bool)
    ensures var feat := FeatureRecord(0, "192.168.1.10", 5, 2500, 2, 4, 1);
            var s := Scorers(Some((x: seq<int>) => IsoVerdict(0.05, false)),
                             Some((x: seq<int>) => SupervisedLabel("BENIGN", 0.80)));
            Respond(feat, ScoreFeature(feat, s), blocked) == []
  {
  }

  // ---------------------------------------------------------------------------
  // The handler

  /** The running service: the models loaded at start-up and everything the
      handler has done so far to the audit log and the firewall. */
  class Monitor {
    const scorers: Scorers
    var trace: seq<Effect>

    constructor (scorers: Scorers)
      ensures this.scorers == scorers && trace == []
    {
      this.scorers := scorers;
      trace := [];
    }

    /** Appends one audit entry. */
    method LogAttack(userId: string, attack: string, status: string, extra: Extra)
      modifies this
      ensures trace == old(trace) + [Logged(AuditEntry(userId, attack, status, extra))]
    {
      trace := trace + [Logged(AuditEntry(userId, attack, status, extra))];
    }

    /** Asks the firewall to drop `ip`; `outcome` is what the firewall reports. */
    method BlockIp(ip: string, outcome: bool) returns (blocked: bool)
      modifies this
      ensures blocked == outcome
      ensures trace == old(trace) + [BlockAttempt(ip)]
    {
      trace := trace + [BlockAttempt(ip)];
      blocked := outcome;
    }

    /** Scores `feat` and carries out the policy; `blockOutcome` is what the
        firewall would report if asked. */
    method HandleFeature(feat: FeatureRecord, blockOutcome: bool)
      modifies this
      ensures trace == old(trace) + Respond(feat, ScoreFeature(feat, scorers), blockOutcome)
      ensures AuditLog(trace) == AuditLog(old(trace)) + AuditLog(Respond(feat, ScoreFeature(feat, scorers), blockOutcome))
    {
      var dec := ScoreFeature(feat, scorers);
      var src := feat.srcIp;
      var extra := FeatureContext(feat, dec);
      if dec.isAnomaly {
        LogAttack(src, "Anomaly", "Detected", extra);
        var blocked := BlockIp(src, blockOutcome);
        LogAttack(src, "AutoBlock", if blocked then "Success" else "Failed", BlockResult(blocked));
      } else if dec.supervisedLabel.Some? && dec.supervisedLabel.value.prob > SupervisedThreshold {
        var lab := dec.supervisedLabel.value.name;
        LogAttack(src, lab, "Detected", extra);
        if Lower(lab) in AutoBlockLabels {
          var blocked := BlockIp(src, blockOutcome);
          LogAttack(src, "AutoBlock", if blocked then "Success" else "Failed", BlockResult(blocked));
        }
      } else {
        if dec.anomalyScore.Some? && dec.anomalyScore.value < LowConfidenceThreshold {
          LogAttack(src, "LowConfidenceAnomaly", "Investigate", extra);
        }
      }
      AuditLogAppend(old(trace), Respond(feat, dec, blockOutcome));
    }
  }
}
