/** Training the evidence ranker: the result does not depend on the order of the samples. Numbers are
    exact reals; tokenizing, case folding, the sigmoid, writing a sample as text and hashing are parameters. */
module Ranking {
  import opened Basics
  import opened Wrappers
  import opened Text
  import opened Sorting

  const FEATURE_COUNT: nat := 13
  const MAX_EXAMPLES: nat := 100_000
  const LIMIT: real := 32.0

  datatype EvidenceKind =
    | Fact | File | Module | Edge | Package | Commit | Metric | Finding | Command | Excerpt

  datatype Evidence = Evidence(id: string, reference: string, detail: string, kind: EvidenceKind)

  datatype Sample = Sample(repository: string, query: string, evidence: Evidence, relevant: bool)

  const MODEL_FORMAT := "repodna-evidence-ranker/1"
  const PAIRWISE_MODEL_FORMAT := "repodna-evidence-pairwise/1"

  datatype Model = Model(
    format: string, weights: seq<real>, trainingExamples: nat, trainingRepositories: nat, fingerprint: Option<string>)

  datatype TrainingError =
    | WrongSize | WrongEpochs | OneSided | InvalidExample | EmptyId | SourceExcerpt | DuplicateId | NoLabels

  datatype ModelError = WrongFormat | WrongWeights | NoProvenance | WrongFingerprint | Unbounded

  // ---------------------------------------------------------------------- features

  function TermsOf(tokens: seq<string>): set<string> {
    set t | t in tokens
  }

  /** The share of the query's terms among the tokens. */
  function Share(query: set<string>, tokens: seq<string>): real {
    if query == {} then 0.0 else |query * TermsOf(tokens)| as real / |query| as real
  }

  /** Counting stops early once every term of the query is found. */
  method Overlap(query: set<string>, tokens: seq<string>) returns (r: real)
    ensures r == Share(query, tokens)
  {
    if query == {} {
      return 0.0;
    }
    var matched: set<string> := {};
    var i := 0;
    while i < |tokens|
      invariant i <= |tokens| && matched == query * TermsOf(tokens[..i])
    {
      TermsNext(tokens, i);
      if tokens[i] in query {
        matched := matched + {tokens[i]};
        if |matched| == |query| {
          AllFound(query, tokens, matched, i);
          break;
        }
      }
      i := i + 1;
    }
    if i == |tokens| {
      assert tokens[..i] == tokens;
    }
    r := |matched| as real / |query| as real;
  }

  lemma TermsNext(tokens: seq<string>, i: nat)
    requires i < |tokens|
    ensures TermsOf(tokens[..i + 1]) == TermsOf(tokens[..i]) + {tokens[i]}
  {
  }

  lemma AllFound(query: set<string>, tokens: seq<string>, matched: set<string>, i: nat)
    requires i < |tokens| && matched == query * TermsOf(tokens[..i + 1]) && |matched| == |query|
    ensures matched == query * TermsOf(tokens)
  {
    assert query == matched + (query - matched);
    assert matched == query;
    forall t | t in matched ensures t in tokens {
      assert t in tokens[..i + 1];
    }
  }

  /** The share is a proportion. */
  lemma ShareBounds(query: set<string>, tokens: seq<string>)
    ensures 0.0 <= Share(query, tokens) <= 1.0
  {
    if query != {} {
      SubsetSize(query * TermsOf(tokens), query);
    }
  }

  function KindIndex(kind: EvidenceKind): nat {
    match kind
    case Fact => 3
    case File => 4
    case Module => 5
    case Edge => 6
    case Package => 7
    case Commit => 8
    case Metric => 9
    case Finding => 10
    case Command => 11
    case Excerpt => 12
  }

  function Features(tokens: string -> seq<string>, query: string, item: Evidence): (x: seq<real>)
    ensures |x| == FEATURE_COUNT
  {
    var terms := TermsOf(tokens(query));
    [1.0, Share(terms, tokens(item.reference)), Share(terms, tokens(item.detail))]
    + seq(10, i => if i + 3 == KindIndex(item.kind) then 1.0 else 0.0)
  }

  /** Exactly one of the features for the ten kinds is set. */
  ghost predicate OneKind(x: seq<real>, k: nat) {
    |x| == 13 && 3 <= k < 13 && x[k] == 1.0 && forall i :: 3 <= i < 13 && i != k ==> x[i] == 0.0
  }

  /** The features of an item: a constant, how much of the query its reference and its detail contain, and its
      kind. Each part of the item shows in features of its own. */
  lemma FeaturesShow(tokens: string -> seq<string>, query: string, a: Evidence, b: Evidence)
    ensures var x, y := Features(tokens, query, a), Features(tokens, query, b);
      && x[0] == y[0] == 1.0
      && (a.reference == b.reference ==> x[1] == y[1])
      && (a.detail == b.detail ==> x[2] == y[2])
      && (x[3..] == y[3..] <==> a.kind == b.kind)
      && exists k: nat :: OneKind(x, k)
  {
    var x, y := Features(tokens, query, a), Features(tokens, query, b);
    var k, l := KindIndex(a.kind), KindIndex(b.kind);
    assert forall i :: 3 <= i < 13 ==> x[i] == (if i == k then 1.0 else 0.0) && y[i] == (if i == l then 1.0 else 0.0);
    assert OneKind(x, k);
    if x[3..] == y[3..] {
      assert x[3..][k - 3] == x[k] && y[3..][k - 3] == y[k];
      assert k == l;
    }
  }

  /** Repeating the query as the reference or as the detail contains all of it. */
  lemma FeaturesOfQuery(tokens: string -> seq<string>, query: string, item: Evidence)
    requires tokens(query) != []
    ensures item.reference == query ==> Features(tokens, query, item)[1] == 1.0
    ensures item.detail == query ==> Features(tokens, query, item)[2] == 1.0
  {
    var terms := TermsOf(tokens(query));
    assert tokens(query)[0] in terms;
    AllShared(terms, tokens(query));
    hide Share;
  }

  lemma AllShared(terms: set<string>, tokens: seq<string>)
    requires terms == TermsOf(tokens) && terms != {}
    ensures Share(terms, tokens) == 1.0
  {
    assert terms * TermsOf(tokens) == terms;
  }

  // -------------------------------------------------------------------- validation

  function NormalizedId(fold: string -> string, id: string): string {
    fold(Trim(id))
  }

  function Key(fold: string -> string, s: Sample): (string, string, string) {
    (NormalizedId(fold, s.repository), s.query, s.evidence.id)
  }

  predicate HasId(s: Sample) {
    Trim(s.evidence.id) != "" && s.evidence.kind != Excerpt
  }

  ghost function KeysOf(fold: string -> string, samples: seq<Sample>): seq<(string, string, string)> {
    seq(|samples|, i requires 0 <= i < |samples| => Key(fold, samples[i]))
  }

  ghost predicate DistinctKeys(fold: string -> string, samples: seq<Sample>) {
    NoDuplicates(KeysOf(fold, samples))
  }

  /** No two samples are about the same evidence for the same query in the same repository, however the name of
      the repository is spelled. */
  lemma DistinctKeysMean(fold: string -> string, samples: seq<Sample>)
    ensures DistinctKeys(fold, samples) <==> forall i, j :: 0 <= i < j < |samples| ==>
      || fold(Trim(samples[i].repository)) != fold(Trim(samples[j].repository))
      || samples[i].query != samples[j].query || samples[i].evidence.id != samples[j].evidence.id
  {
    var keys := KeysOf(fold, samples);
    forall i, j | 0 <= i < j < |samples|
      ensures keys[i] == keys[j] <==>
        && fold(Trim(samples[i].repository)) == fold(Trim(samples[j].repository))
        && samples[i].query == samples[j].query && samples[i].evidence.id == samples[j].evidence.id
    {
    }
  }

  ghost predicate AllHaveIds(samples: seq<Sample>) {
    forall i :: 0 <= i < |samples| ==> HasId(samples[i])
  }

  ghost predicate ValidIds(fold: string -> string, samples: seq<Sample>) {
    AllHaveIds(samples) && DistinctKeys(fold, samples)
  }

  lemma ValidNext(fold: string -> string, samples: seq<Sample>, i: nat)
    requires i < |samples| && ValidIds(fold, samples[..i])
    ensures ValidIds(fold, samples[..i + 1]) <==>
      HasId(samples[i]) && Key(fold, samples[i]) !in KeysOf(fold, samples[..i])
    ensures KeysOf(fold, samples[..i + 1]) == KeysOf(fold, samples[..i]) + [Key(fold, samples[i])]
  {
    hide NoDuplicates, Key, HasId;
    assert samples[..i + 1] == samples[..i] + [samples[i]];
    NoDuplicatesNext(KeysOf(fold, samples[..i]), Key(fold, samples[i]));
    assert KeysOf(fold, samples[..i + 1]) == KeysOf(fold, samples[..i]) + [Key(fold, samples[i])];
    assert samples[..i + 1][i] == samples[i];
  }

  lemma ValidPrefix(fold: string -> string, samples: seq<Sample>, i: nat)
    requires i <= |samples|
    ensures ValidIds(fold, samples) ==> ValidIds(fold, samples[..i])
  {
    hide Key, HasId;
    assert forall k :: 0 <= k < i ==> KeysOf(fold, samples[..i])[k] == KeysOf(fold, samples)[k];
  }

  /** The first sample that makes the samples invalid, and what is wrong with it. */
  ghost predicate Offends(fold: string -> string, samples: seq<Sample>, i: nat, e: TrainingError) {
    && i < |samples| && ValidIds(fold, samples[..i]) && !ValidIds(fold, samples[..i + 1])
    && e == if Trim(samples[i].evidence.id) == "" then EmptyId
            else if samples[i].evidence.kind == Excerpt then SourceExcerpt
            else DuplicateId
  }

  method ValidateEvidenceIds(fold: string -> string, samples: seq<Sample>) returns (r: Option<TrainingError>)
    ensures r.None? <==> ValidIds(fold, samples)
    ensures r.Some? ==> exists i: nat :: Offends(fold, samples, i, r.value)
  {
    NothingInvalid(fold, samples);
    hide ValidIds, KeysOf, Key;
    var seen: set<(string, string, string)> := {};
    var i := 0;
    while i < |samples|
      invariant i <= |samples| && ValidIds(fold, samples[..i])
      invariant forall k :: k in seen <==> k in KeysOf(fold, samples[..i])
    {
      ValidNext(fold, samples, i);
      ValidPrefix(fold, samples, i + 1);
      var s := samples[i];
      if Trim(s.evidence.id) == "" {
        assert Offends(fold, samples, i, EmptyId);
        return Some(EmptyId);
      }
      if s.evidence.kind == Excerpt {
        assert Offends(fold, samples, i, SourceExcerpt);
        return Some(SourceExcerpt);
      }
      if Key(fold, s) in seen {
        assert Offends(fold, samples, i, DuplicateId);
        return Some(DuplicateId);
      }
      seen := seen + {Key(fold, s)};
      i := i + 1;
    }
    assert samples[..i] == samples;
    r := None;
  }

  lemma NothingInvalid(fold: string -> string, samples: seq<Sample>)
    ensures ValidIds(fold, samples[..0]) && KeysOf(fold, samples[..0]) == []
  {
  }

  /** Nothing is missing, and nothing is too long. */
  ghost predicate IsExample(s: Sample) {
    && Trim(s.repository) != "" && Trim(s.query) != "" && Trim(s.evidence.detail) != ""
    && ByteLength(s.query) <= 4_000 && ByteLength(s.evidence.detail) <= 8_000
  }

  /** What training accepts. */
  ghost predicate Trainable(fold: string -> string, samples: seq<Sample>, epochs: nat) {
    && 2 <= |samples| <= MAX_EXAMPLES && 1 <= epochs <= 200
    && BothLabels(samples)
    && (forall s :: s in samples ==> IsExample(s))
    && ValidIds(fold, samples)
  }

  ghost predicate BothLabels(samples: seq<Sample>) {
    (exists s :: s in samples && s.relevant) && (exists s :: s in samples && !s.relevant)
  }

  /** The first check that fails names the error. */
  ghost predicate Explains(fold: string -> string, samples: seq<Sample>, epochs: nat, e: TrainingError) {
    if !(2 <= |samples| <= MAX_EXAMPLES) then e == WrongSize
    else if !(1 <= epochs <= 200) then e == WrongEpochs
    else if !BothLabels(samples) then e == OneSided
    else if exists s :: s in samples && !IsExample(s) then e == InvalidExample
    else exists i: nat :: Offends(fold, samples, i, e)
  }

  // ----------------------------------------------------------------------- descent

  function Clamp(x: real): (r: real)
    ensures -LIMIT <= r <= LIMIT
  {
    if x < -LIMIT then -LIMIT else if x > LIMIT then LIMIT else x
  }

  /** The weighted sum of the first `n` features. */
  function Logit(weights: seq<real>, x: seq<real>, n: nat): real
    requires n <= |weights| && n <= |x|
  {
    if n == 0 then 0.0 else Logit(weights, x, n - 1) + weights[n - 1] * x[n - 1]
  }

  function Moved(w: real, error: real, feature: real): real {
    Clamp(w + 0.05 * (error * feature - 0.001 * w))
  }

  type Prepared = (seq<real>, bool)

  function Learned(sigmoid: real -> real, weights: seq<real>, p: Prepared): (r: seq<real>)
    requires |weights| == FEATURE_COUNT == |p.0|
    ensures |r| == FEATURE_COUNT
  {
    var error := (if p.1 then 1.0 else 0.0) - sigmoid(Logit(weights, p.0, FEATURE_COUNT));
    seq(FEATURE_COUNT, i requires 0 <= i < FEATURE_COUNT => Moved(weights[i], error, p.0[i]))
  }

  ghost predicate AllPrepared(prepared: seq<Prepared>) {
    forall i :: 0 <= i < |prepared| ==> |prepared[i].0| == FEATURE_COUNT
  }

  /** One pass over the first `n` samples. */
  function Epoch(sigmoid: real -> real, weights: seq<real>, prepared: seq<Prepared>, n: nat): (r: seq<real>)
    requires |weights| == FEATURE_COUNT && AllPrepared(prepared) && n <= |prepared|
    ensures |r| == FEATURE_COUNT
  {
    if n == 0 then weights else Learned(sigmoid, Epoch(sigmoid, weights, prepared, n - 1), prepared[n - 1])
  }

  function Epochs(sigmoid: real -> real, prepared: seq<Prepared>, epochs: nat): (r: seq<real>)
    requires AllPrepared(prepared)
    ensures |r| == FEATURE_COUNT
  {
    if epochs == 0 then seq(FEATURE_COUNT, _ => 0.0)
    else Epoch(sigmoid, Epochs(sigmoid, prepared, epochs - 1), prepared, |prepared|)
  }

  function LeSample(a: Sample, b: Sample): bool {
    if a.repository != b.repository then LeText(a.repository, b.repository)
    else if a.query != b.query then LeText(a.query, b.query)
    else LeText(a.evidence.id, b.evidence.id)
  }

  function Prepare(tokens: string -> seq<string>, samples: seq<Sample>): (r: seq<Prepared>)
    ensures AllPrepared(r) && |r| == |samples|
  {
    seq(|samples|, i requires 0 <= i < |samples| =>
      (Features(tokens, samples[i].query, samples[i].evidence), samples[i].relevant))
  }

  function Repositories(fold: string -> string, samples: seq<Sample>): set<string> {
    set s | s in samples :: NormalizedId(fold, s.repository)
  }

  /** What training takes from outside. */
  datatype Tools = Tools(
    tokens: string -> seq<string>, fold: string -> string, sigmoid: real -> real,
    row: Sample -> string, digest: seq<string> -> Digest)

  function Trained(tools: Tools, samples: seq<Sample>, epochs: nat): Model {
    Model(MODEL_FORMAT, Epochs(tools.sigmoid, Prepare(tools.tokens, Sort(samples, LeSample)), epochs),
          |samples|, |Repositories(tools.fold, samples)|, Some(Fingerprint(tools.row, tools.digest, samples)))
  }

  // ------------------------------------------------------------------ fingerprints

  type Digest = d: seq<nat> | |d| == 32 && forall i :: 0 <= i < |d| ==> d[i] < 256 witness seq(32, _ => 0)

  const HEX := "0123456789abcdef"

  function Hex(bytes: seq<nat>): (r: string)
    requires forall i :: 0 <= i < |bytes| ==> bytes[i] < 256
    ensures |r| == 2 * |bytes|
    ensures forall i :: 0 <= i < |r| ==> IsHex(r[i])
  {
    if bytes == [] then "" else [HEX[bytes[0] / 16], HEX[bytes[0] % 16]] + Hex(bytes[1..])
  }

  predicate IsHex(c: char) {
    '0' <= c <= '9' || 'a' <= c <= 'f'
  }

  function LeRow(a: string, b: string): bool {
    LeText(a, b)
  }

  function Rows(row: Sample -> string, samples: seq<Sample>): seq<string> {
    if samples == [] then [] else [row(samples[0])] + Rows(row, samples[1..])
  }

  /** The hash of the rows in order. */
  function Fingerprint(row: Sample -> string, digest: seq<string> -> Digest, samples: seq<Sample>): string {
    Hex(digest(Sort(Rows(row, samples), LeRow)))
  }

  method TrainingFingerprint(tools: Tools, samples: seq<Sample>) returns (r: Result<string, TrainingError>)
    ensures r.Ok? <==> samples != [] && ValidIds(tools.fold, samples)
    ensures r.Ok? ==> r.value == Fingerprint(tools.row, tools.digest, samples)
    ensures r.Err? && samples != [] ==> exists i: nat :: Offends(tools.fold, samples, i, r.error)
  {
    if samples == [] {
      return Err(NoLabels);
    }
    var invalid := ValidateEvidenceIds(tools.fold, samples);
    if invalid.Some? {
      return Err(invalid.value);
    }
    hide ValidIds, Offends;
    var rows: seq<string> := [];
    var i := 0;
    while i < |samples|
      invariant i <= |samples| && Rows(tools.row, samples) == rows + Rows(tools.row, samples[i..])
    {
      assert samples[i..][1..] == samples[i + 1..];
      Basics.Regroup(rows, [tools.row(samples[i])], Rows(tools.row, samples[i + 1..]));
      rows := rows + [tools.row(samples[i])];
      i := i + 1;
    }
    NothingAfter(rows);
    r := Ok(Hex(tools.digest(Sort(rows, LeRow))));
  }

  // ------------------------------------------------------------------- valid models

  predicate IsFingerprint(s: string) {
    ByteLength(s) == 64 && forall i :: 0 <= i < |s| ==> IsHex(s[i])
  }

  predicate Within(weights: seq<real>) {
    forall i :: 0 <= i < |weights| ==> -LIMIT <= weights[i] <= LIMIT
  }

  /** What a checkpoint has to be. */
  predicate IsValid(m: Model) {
    && (m.format == MODEL_FORMAT || m.format == PAIRWISE_MODEL_FORMAT)
    && |m.weights| == FEATURE_COUNT
    && m.trainingExamples > 0 && m.trainingRepositories > 0
    && (m.fingerprint.Some? ==> IsFingerprint(m.fingerprint.value))
    && Within(m.weights)
  }

  method Validate(m: Model) returns (r: Option<ModelError>)
    ensures r.None? <==> IsValid(m)
  {
    if m.format != MODEL_FORMAT && m.format != PAIRWISE_MODEL_FORMAT {
      return Some(WrongFormat);
    }
    if |m.weights| != FEATURE_COUNT {
      return Some(WrongWeights);
    }
    if m.trainingExamples == 0 || m.trainingRepositories == 0 {
      return Some(NoProvenance);
    }
    if m.fingerprint.Some? && !IsFingerprint(m.fingerprint.value) {
      return Some(WrongFingerprint);
    }
    if !Within(m.weights) {
      return Some(Unbounded);
    }
    return None;
  }

  method LearnSample(sigmoid: real -> real, weights: array<real>, x: seq<real>, relevant: bool)
    requires weights.Length == FEATURE_COUNT == |x|
    modifies weights
    ensures weights[..] == Learned(sigmoid, old(weights[..]), (x, relevant))
  {
    var logit := 0.0;
    var i := 0;
    while i < FEATURE_COUNT
      invariant i <= FEATURE_COUNT && weights[..] == old(weights[..]) && logit == Logit(weights[..], x, i)
    {
      logit := logit + weights[i] * x[i];
      i := i + 1;
    }
    var error := (if relevant then 1.0 else 0.0) - sigmoid(logit);
    i := 0;
    while i < FEATURE_COUNT
      invariant i <= FEATURE_COUNT
      invariant forall k :: 0 <= k < i ==> weights[k] == Moved(old(weights[k]), error, x[k])
      invariant forall k :: i <= k < FEATURE_COUNT ==> weights[k] == old(weights[k])
    {
      weights[i] := Moved(weights[i], error, x[i]);
      i := i + 1;
    }
  }

  method Descend(sigmoid: real -> real, prepared: seq<Prepared>, epochs: nat) returns (r: seq<real>)
    requires AllPrepared(prepared)
    ensures r == Epochs(sigmoid, prepared, epochs)
  {
    hide Learned;
    var weights := new real[FEATURE_COUNT](_ => 0.0);
    var epoch := 0;
    assert weights[..] == seq(FEATURE_COUNT, _ => 0.0);
    while epoch < epochs
      invariant epoch <= epochs && weights[..] == Epochs(sigmoid, prepared, epoch)
    {
      ghost var before := weights[..];
      var i := 0;
      while i < |prepared|
        invariant i <= |prepared| && weights[..] == Epoch(sigmoid, before, prepared, i)
      {
        LearnSample(sigmoid, weights, prepared[i].0, prepared[i].1);
        i := i + 1;
      }
      epoch := epoch + 1;
    }
    r := weights[..];
  }

  method AreExamples(samples: seq<Sample>) returns (all: bool)
    ensures all <==> forall s :: s in samples ==> IsExample(s)
  {
    hide Trim, ByteLength;
    var i := 0;
    while i < |samples|
      invariant i <= |samples| && forall k :: 0 <= k < i ==> IsExample(samples[k])
    {
      var s := samples[i];
      if Trim(s.repository) == "" || Trim(s.query) == "" || Trim(s.evidence.detail) == ""
        || ByteLength(s.query) > 4_000 || ByteLength(s.evidence.detail) > 8_000
      {
        assert s in samples && !IsExample(s);
        return false;
      }
      i := i + 1;
    }
    all := true;
  }

  /** Fits the weights to the samples in the order of their identity. The check at the end never fails. */
  method Fit(tools: Tools, samples: seq<Sample>, epochs: nat) returns (model: Model)
    requires samples != [] && ValidIds(tools.fold, samples)
    ensures model == Trained(tools, samples, epochs) && IsValid(model)
  {
    hide ValidIds, Sort, Prepare, Epochs, Fingerprint, Trained, IsValid;
    var prepared := Prepare(tools.tokens, Sort(samples, LeSample));
    var weights := Descend(tools.sigmoid, prepared, epochs);
    var fingerprint := TrainingFingerprint(tools, samples);
    model := Model(MODEL_FORMAT, weights, |samples|, |Repositories(tools.fold, samples)|, Some(fingerprint.value));
    IsTrained(tools, samples, epochs);
    TrainedIsValid(tools, samples, epochs);
    var invalidModel := Validate(model);
    assert invalidModel.None?;
  }

  /** Checks the samples, and fits a model to them. */
  method Train(tools: Tools, samples: seq<Sample>, epochs: nat) returns (r: Result<Model, TrainingError>)
    ensures r.Ok? <==> Trainable(tools.fold, samples, epochs)
    ensures r.Err? ==> Explains(tools.fold, samples, epochs, r.error)
    ensures r.Ok? ==> r.value == Trained(tools, samples, epochs) && IsValid(r.value)
  {
    hide ValidIds, IsExample, Trained, Offends, IsValid, DistinctKeys, AllHaveIds;
    if !(2 <= |samples| <= MAX_EXAMPLES) {
      return Err(WrongSize);
    }
    if !(1 <= epochs <= 200) {
      return Err(WrongEpochs);
    }
    if !(exists s :: s in samples && s.relevant) || !(exists s :: s in samples && !s.relevant) {
      return Err(OneSided);
    }
    var examples := AreExamples(samples);
    if !examples {
      return Err(InvalidExample);
    }
    var invalid := ValidateEvidenceIds(tools.fold, samples);
    if invalid.Some? {
      return Err(invalid.value);
    }
    var model := Fit(tools, samples, epochs);
    r := Ok(model);
  }

  lemma IsTrained(tools: Tools, samples: seq<Sample>, epochs: nat)
    ensures Trained(tools, samples, epochs) == Model(
      MODEL_FORMAT, Epochs(tools.sigmoid, Prepare(tools.tokens, Sort(samples, LeSample)), epochs), |samples|,
      |Repositories(tools.fold, samples)|, Some(Fingerprint(tools.row, tools.digest, samples)))
  {
  }

  // ----------------------------------------------------------- what one sample teaches

  /** The square of the length of the first `n` features. */
  ghost function Square(x: seq<real>, n: nat): real
    requires n <= |x|
  {
    if n == 0 then 0.0 else Square(x, n - 1) + x[n - 1] * x[n - 1]
  }

  ghost function Label(relevant: bool): real {
    if relevant then 1.0 else 0.0
  }

  /** A twentieth of the error in proportion to `s`, less a small part of what there is. */
  ghost function Adjusted(a: real, error: real, s: real): real {
    a + 0.05 * (error * s - 0.001 * a)
  }

  lemma AdjustedSum(a: real, b: real, s: real, t: real, error: real)
    ensures Adjusted(a, error, s) + Adjusted(b, error, t) == Adjusted(a + b, error, s + t)
  {
    assert error * (s + t) == error * s + error * t;
  }

  lemma AdjustedTimes(w: real, f: real, error: real)
    ensures Adjusted(w, error, f) * f == Adjusted(w * f, error, f * f)
  {
    Distribute(w, error * f, f);
    assert (error * f) * f == error * (f * f);
  }

  lemma Distribute(w: real, m: real, f: real)
    ensures (w + 0.05 * (m - 0.001 * w)) * f == w * f + 0.05 * (m * f - 0.001 * (w * f))
  {
    assert (0.05 * (m - 0.001 * w)) * f == 0.05 * ((m - 0.001 * w) * f);
    assert (m - 0.001 * w) * f == m * f - (0.001 * w) * f;
  }

  /** The update stays inside the limits, so that nothing is cut off. */
  ghost predicate Unclamped(weights: seq<real>, x: seq<real>, error: real) {
    |weights| <= |x| && forall i :: 0 <= i < |weights| ==> -32.0 <= Adjusted(weights[i], error, x[i]) <= 32.0
  }

  lemma MovedUnclamped(w: real, error: real, feature: real)
    requires -32.0 <= Adjusted(w, error, feature) <= 32.0
    ensures Moved(w, error, feature) == Adjusted(w, error, feature)
  {
  }

  lemma {:induction false} LogitMoves(weights: seq<real>, next: seq<real>, x: seq<real>, error: real, n: nat)
    requires |weights| == |next| == |x| && n <= |x| && Unclamped(weights, x, error)
    requires forall i :: 0 <= i < |x| ==> next[i] == Moved(weights[i], error, x[i])
    ensures Logit(next, x, n) == Adjusted(Logit(weights, x, n), error, Square(x, n))
  {
    hide Adjusted, Moved, Logit, Square;
    if n == 0 {
      LogitStart(weights, next, x, error);
    } else {
      LogitMoves(weights, next, x, error, n - 1);
      var w, f := weights[n - 1], x[n - 1];
      MovedUnclamped(w, error, f);
      LogitNext(weights, x, n, w, f);
      LogitNext(next, x, n, Adjusted(w, error, f), f);
      LogitStep(Logit(weights, x, n - 1), Square(x, n - 1), w, f, error);
    }
  }

  lemma LogitStart(weights: seq<real>, next: seq<real>, x: seq<real>, error: real)
    ensures Logit(next, x, 0) == Adjusted(Logit(weights, x, 0), error, Square(x, 0))
  {
    assert error * 0.0 == 0.0;
  }

  lemma LogitNext(weights: seq<real>, x: seq<real>, n: nat, w: real, f: real)
    requires 0 < n <= |weights| && n <= |x| && weights[n - 1] == w && x[n - 1] == f
    ensures Logit(weights, x, n) == Logit(weights, x, n - 1) + w * f
    ensures Square(x, n) == Square(x, n - 1) + f * f
  {
  }

  lemma LogitStep(logit: real, square: real, w: real, f: real, error: real)
    ensures Adjusted(logit, error, square) + Adjusted(w, error, f) * f == Adjusted(logit + w * f, error, square + f * f)
  {
    AdjustedTimes(w, f, error);
    hide Adjusted;
    AdjustedSum(logit, w * f, square, f * f, error);
  }

  /** One sample moves its own logit by the error times the square of its features, and towards zero by a small
      part of the logit. */
  lemma SampleMovesLogit(sigmoid: real -> real, weights: seq<real>, x: seq<real>, relevant: bool)
    requires |weights| == FEATURE_COUNT == |x|
    requires Unclamped(weights, x, Label(relevant) - sigmoid(Logit(weights, x, FEATURE_COUNT)))
    ensures var before := Logit(weights, x, FEATURE_COUNT);
      Logit(Learned(sigmoid, weights, (x, relevant)), x, FEATURE_COUNT)
        == Adjusted(before, Label(relevant) - sigmoid(before), Square(x, FEATURE_COUNT))
  {
    var error := Label(relevant) - sigmoid(Logit(weights, x, FEATURE_COUNT));
    hide Adjusted, Moved, Logit, Square, Unclamped;
    LogitMoves(weights, Learned(sigmoid, weights, (x, relevant)), x, error, FEATURE_COUNT);
  }

  /** So a sample that is scored on the wrong side of zero, or at zero, moves towards its label. */
  lemma TowardsLabel(sigmoid: real -> real, weights: seq<real>, x: seq<real>, relevant: bool)
    requires |weights| == FEATURE_COUNT == |x| && x[0] == 1.0
    requires Unclamped(weights, x, Label(relevant) - sigmoid(Logit(weights, x, FEATURE_COUNT)))
    requires 0.0 < sigmoid(Logit(weights, x, FEATURE_COUNT)) < 1.0
    requires var before := Logit(weights, x, FEATURE_COUNT); if relevant then before <= 0.0 else before >= 0.0
    ensures var before, after :=
        Logit(weights, x, FEATURE_COUNT), Logit(Learned(sigmoid, weights, (x, relevant)), x, FEATURE_COUNT);
      if relevant then after > before else after < before
  {
    hide Logit, Learned, Square, Unclamped;
    var before := Logit(weights, x, FEATURE_COUNT);
    SampleMovesLogit(sigmoid, weights, x, relevant);
    SquareAtLeast(x, FEATURE_COUNT);
    Away(Label(relevant) - sigmoid(before), Square(x, FEATURE_COUNT));
  }

  lemma Away(error: real, square: real)
    requires square >= 1.0
    ensures error > 0.0 ==> error * square > 0.0
    ensures error < 0.0 ==> error * square < 0.0
  {
  }

  lemma {:induction false} SquareAtLeast(x: seq<real>, n: nat)
    requires 0 < n <= |x| && x[0] == 1.0
    ensures Square(x, n) >= 1.0
  {
    if n > 1 {
      SquareAtLeast(x, n - 1);
    } else {
      assert Square(x, 0) == 0.0;
    }
  }

  // ------------------------------------------------------------ what training keeps

  ghost predicate Bounded(weights: seq<real>) {
    |weights| == FEATURE_COUNT && forall i :: 0 <= i < FEATURE_COUNT ==> -LIMIT <= weights[i] <= LIMIT
  }

  lemma {:induction false} EpochBounded(sigmoid: real -> real, weights: seq<real>, prepared: seq<Prepared>, n: nat)
    requires Bounded(weights) && AllPrepared(prepared) && n <= |prepared|
    ensures Bounded(Epoch(sigmoid, weights, prepared, n))
  {
    if n > 0 {
      EpochBounded(sigmoid, weights, prepared, n - 1);
    }
  }

  /** Whatever the samples and the sigmoid, the weights stay within the limits of a valid model. */
  lemma {:induction false} WeightsBounded(sigmoid: real -> real, prepared: seq<Prepared>, epochs: nat)
    requires AllPrepared(prepared)
    ensures Bounded(Epochs(sigmoid, prepared, epochs))
  {
    if epochs > 0 {
      WeightsBounded(sigmoid, prepared, epochs - 1);
      EpochBounded(sigmoid, Epochs(sigmoid, prepared, epochs - 1), prepared, |prepared|);
    }
  }

  lemma {:induction false} HexBytes(s: string)
    requires forall i :: 0 <= i < |s| ==> IsHex(s[i])
    ensures ByteLength(s) == |s|
  {
    if s != "" {
      HexBytes(s[1..]);
    }
  }

  /** Whatever is passed for hashing and the rest, a trained model is a valid checkpoint. */
  lemma TrainedIsValid(tools: Tools, samples: seq<Sample>, epochs: nat)
    requires samples != []
    ensures IsValid(Trained(tools, samples, epochs))
  {
    hide Epochs, Sort, Fingerprint, IsFingerprint, Repositories;
    WeightsBounded(tools.sigmoid, Prepare(tools.tokens, Sort(samples, LeSample)), epochs);
    FingerprintIsHex(tools.row, tools.digest, samples);
    SomeRepository(tools.fold, samples);
  }

  lemma FingerprintIsHex(row: Sample -> string, digest: seq<string> -> Digest, samples: seq<Sample>)
    ensures IsFingerprint(Fingerprint(row, digest, samples))
  {
    hide ByteLength, Sort, Rows;
    HexBytes(Fingerprint(row, digest, samples));
  }

  lemma SomeRepository(fold: string -> string, samples: seq<Sample>)
    requires samples != []
    ensures |Repositories(fold, samples)| > 0
  {
    assert NormalizedId(fold, samples[0].repository) in Repositories(fold, samples);
  }

  lemma LeSampleTransitive(a: Sample, b: Sample, c: Sample)
    requires LeSample(a, b) && LeSample(b, c)
    ensures LeSample(a, c)
  {
    if a.repository == b.repository == c.repository {
      if a.query == b.query == c.query {
        LeTextTransitive(a.evidence.id, b.evidence.id, c.evidence.id);
      } else if a.query != b.query && b.query != c.query {
        LeTextStrict(a.query, b.query, c.query);
      }
    } else if a.repository != b.repository && b.repository != c.repository {
      LeTextStrict(a.repository, b.repository, c.repository);
    }
  }

  lemma LeTextStrict(x: string, y: string, z: string)
    requires LeText(x, y) && LeText(y, z) && x != y
    ensures LeText(x, z) && x != z
  {
    LeTextTransitive(x, y, z);
    if x == z {
      LeTextAntisymmetric(x, y);
    }
  }

  lemma SampleOrder()
    ensures TotalOrder(LeSample)
  {
    forall a: Sample, b: Sample ensures LeSample(a, b) || LeSample(b, a) {
      LeTextTotal(a.repository, b.repository);
      LeTextTotal(a.query, b.query);
      LeTextTotal(a.evidence.id, b.evidence.id);
    }
    forall a: Sample, b: Sample, c: Sample | LeSample(a, b) && LeSample(b, c) ensures LeSample(a, c) {
      LeSampleTransitive(a, b, c);
    }
  }

  lemma SameIdentity(a: Sample, b: Sample)
    requires LeSample(a, b) && LeSample(b, a)
    ensures a.repository == b.repository && a.query == b.query && a.evidence.id == b.evidence.id
  {
    if a.repository != b.repository {
      LeTextAntisymmetric(a.repository, b.repository);
    } else if a.query != b.query {
      LeTextAntisymmetric(a.query, b.query);
    } else {
      LeTextAntisymmetric(a.evidence.id, b.evidence.id);
    }
  }

  ghost predicate KeysTell(fold: string -> string, samples: seq<Sample>) {
    forall a, b :: a in samples && b in samples && Key(fold, a) == Key(fold, b) ==> a == b
  }

  lemma DistinctKeysTell(fold: string -> string, samples: seq<Sample>)
    requires DistinctKeys(fold, samples)
    ensures NoDuplicates(samples) && KeysTell(fold, samples)
  {
    hide Key;
    var keys := KeysOf(fold, samples);
    assert forall i :: 0 <= i < |samples| ==> keys[i] == Key(fold, samples[i]);
    forall i, j | 0 <= i < j < |samples| ensures samples[i] != samples[j] {
      assert keys[i] != keys[j];
    }
    forall a, b | a in samples && b in samples && Key(fold, a) == Key(fold, b) ensures a == b {
      var i :| 0 <= i < |samples| && samples[i] == a;
      var j :| 0 <= j < |samples| && samples[j] == b;
      assert keys[i] == keys[j];
    }
  }

  lemma TellingKeysDistinct(fold: string -> string, samples: seq<Sample>)
    requires NoDuplicates(samples) && KeysTell(fold, samples)
    ensures DistinctKeys(fold, samples)
  {
    hide Key;
    var keys := KeysOf(fold, samples);
    assert forall i :: 0 <= i < |samples| ==> keys[i] == Key(fold, samples[i]);
    forall i, j | 0 <= i < j < |keys| ensures keys[i] != keys[j] {
      assert samples[i] in samples && samples[j] in samples && samples[i] != samples[j];
    }
  }

  lemma KeysTellApart(fold: string -> string, samples: seq<Sample>)
    ensures DistinctKeys(fold, samples) <==> NoDuplicates(samples) && KeysTell(fold, samples)
  {
    if DistinctKeys(fold, samples) {
      DistinctKeysTell(fold, samples);
    }
    if NoDuplicates(samples) && KeysTell(fold, samples) {
      TellingKeysDistinct(fold, samples);
    }
  }

  /** Distinct normalized keys make the raw sort key tell the samples apart. */
  lemma IdentityTellsApart(fold: string -> string, samples: seq<Sample>)
    requires DistinctKeys(fold, samples)
    ensures TellsApart(samples, LeSample)
  {
    KeysTellApart(fold, samples);
    forall a, b | a in samples && b in samples && LeSample(a, b) && LeSample(b, a) ensures a == b {
      SameIdentity(a, b);
    }
  }

  /** Reordering the samples changes neither whether they are accepted nor the model. */
  lemma OrderDoesNotMatter(tools: Tools, a: seq<Sample>, b: seq<Sample>, epochs: nat)
    requires multiset(a) == multiset(b)
    ensures Trainable(tools.fold, a, epochs) <==> Trainable(tools.fold, b, epochs)
    ensures Trainable(tools.fold, a, epochs) ==> Trained(tools, a, epochs) == Trained(tools, b, epochs)
  {
    SameMembers(a, b);
    SameAccepted(tools.fold, a, b);
    SameLabels(a, b);
    hide ValidIds, BothLabels, IsExample, Trained;
    if Trainable(tools.fold, a, epochs) {
      SameModel(tools, a, b, epochs);
    }
  }

  lemma {:induction false} RowsConcat(row: Sample -> string, a: seq<Sample>, b: seq<Sample>)
    ensures Rows(row, a + b) == Rows(row, a) + Rows(row, b)
  {
    if a == [] {
      assert a + b == b;
    } else {
      RowsConcat(row, a[1..], b);
      TailOfSum(a, b);
    }
  }

  lemma {:induction false} SameRows(row: Sample -> string, a: seq<Sample>, b: seq<Sample>)
    requires multiset(a) == multiset(b)
    ensures multiset(Rows(row, a)) == multiset(Rows(row, b))
    decreases |a|
  {
    SameMembers(a, b);
    if a != [] {
      assert a[0] in b;
      var k :| 0 <= k < |b| && b[k] == a[0];
      var left, right := b[..k], b[k + 1..];
      assert b == left + ([a[0]] + right);
      assert a == [a[0]] + a[1..];
      WithoutOne(a[0], a[1..], left, right);
      SameRows(row, a[1..], left + right);
      RowTakenOut(row, left, a[0], right);
    }
  }

  lemma WithoutOne(x: Sample, rest: seq<Sample>, left: seq<Sample>, right: seq<Sample>)
    requires multiset([x] + rest) == multiset(left + ([x] + right))
    ensures multiset(rest) == multiset(left + right)
  {
    OneInside(left, x, right);
    SameRest(multiset{x}, multiset(rest), multiset(left + right));
  }

  lemma OneInside<T>(left: seq<T>, x: T, right: seq<T>)
    ensures multiset(left + ([x] + right)) == multiset{x} + multiset(left + right)
  {
  }

  lemma SameRest<T>(one: multiset<T>, a: multiset<T>, b: multiset<T>)
    requires one + a == one + b
    ensures a == b
  {
    forall x ensures a[x] == b[x] {
      assert (one + a)[x] == (one + b)[x];
    }
  }

  lemma RowTakenOut(row: Sample -> string, left: seq<Sample>, x: Sample, right: seq<Sample>)
    ensures multiset(Rows(row, left + ([x] + right))) == multiset{row(x)} + multiset(Rows(row, left + right))
  {
    assert ([x] + right)[1..] == right;
    assert Rows(row, [x] + right) == [row(x)] + Rows(row, right);
    hide Rows;
    RowsConcat(row, left, right);
    RowsConcat(row, left, [x] + right);
    OneInside(Rows(row, left), row(x), Rows(row, right));
  }

  lemma SameFingerprint(row: Sample -> string, digest: seq<string> -> Digest, a: seq<Sample>, b: seq<Sample>)
    requires multiset(a) == multiset(b)
    ensures Fingerprint(row, digest, a) == Fingerprint(row, digest, b)
  {
    SameRows(row, a, b);
    RowOrder();
    AntisymmetricTellsApart(Rows(row, a), LeRow);
    SortOfPermutation(Rows(row, a), Rows(row, b), LeRow);
  }

  lemma RowOrder()
    ensures TotalOrder(LeRow) && Antisymmetric(LeRow)
  {
    forall a: string, b: string ensures LeRow(a, b) || LeRow(b, a) {
      LeTextTotal(a, b);
    }
    forall a: string, b: string, c: string | LeRow(a, b) && LeRow(b, c) ensures LeRow(a, c) {
      LeTextTransitive(a, b, c);
    }
    forall a: string, b: string | LeRow(a, b) && LeRow(b, a) ensures a == b {
      LeTextAntisymmetric(a, b);
    }
  }

  lemma SameLabels(a: seq<Sample>, b: seq<Sample>)
    requires forall x :: x in a <==> x in b
    ensures BothLabels(a) <==> BothLabels(b)
  {
  }

  lemma SameModel(tools: Tools, a: seq<Sample>, b: seq<Sample>, epochs: nat)
    requires multiset(a) == multiset(b) && ValidIds(tools.fold, a)
    ensures Trained(tools, a, epochs) == Trained(tools, b, epochs)
  {
    SameMembers(a, b);
    assert Repositories(tools.fold, a) == Repositories(tools.fold, b);
    IdentityTellsApart(tools.fold, a);
    SampleOrder();
    SortOfPermutation(a, b, LeSample);
    SameFingerprint(tools.row, tools.digest, a, b);
    hide Fingerprint, Sort, Epochs, Prepare, Repositories;
  }

  lemma SameAccepted(fold: string -> string, a: seq<Sample>, b: seq<Sample>)
    requires multiset(a) == multiset(b) && forall x :: x in a <==> x in b
    ensures ValidIds(fold, a) <==> ValidIds(fold, b)
  {
    KeysTellApart(fold, a);
    KeysTellApart(fold, b);
    NoDuplicatesMultiset(a);
    NoDuplicatesMultiset(b);
    MembersHaveIds(a);
    MembersHaveIds(b);
  }

  lemma MembersHaveIds(samples: seq<Sample>)
    ensures AllHaveIds(samples) <==> (forall s :: s in samples ==> HasId(s))
  {
  }

  // ----------------------------------------------------------------------- ranking

  function LeScore(scores: seq<real>, i: nat, j: nat): bool {
    var x, y := if i < |scores| then scores[i] else 0.0, if j < |scores| then scores[j] else 0.0;
    x > y || (x == y && i <= j)
  }

  /** Scores descend, and equal scores keep their order. */
  ghost predicate IsRanking(scores: seq<real>, r: seq<nat>) {
    && multiset(r) == multiset(Indices(|scores|))
    && forall k, l :: 0 <= k < l < |r| && r[k] < |scores| && r[l] < |scores| ==>
         scores[r[k]] > scores[r[l]] || (scores[r[k]] == scores[r[l]] && r[k] < r[l])
  }

  function Scores(tokens: string -> seq<string>, sigmoid: real -> real, weights: seq<real>, query: string,
                  items: seq<Evidence>): seq<real>
    requires |weights| == FEATURE_COUNT
  {
    seq(|items|, i requires 0 <= i < |items| =>
      sigmoid(Logit(weights, Features(tokens, query, items[i]), FEATURE_COUNT)))
  }

  method RankIndices(tokens: string -> seq<string>, sigmoid: real -> real, weights: seq<real>, query: string,
                     items: seq<Evidence>)
    returns (r: seq<nat>)
    requires |weights| == FEATURE_COUNT
    ensures IsRanking(Scores(tokens, sigmoid, weights, query, items), r)
  {
    var scores := Scores(tokens, sigmoid, weights, query, items);
    var le := (i: nat, j: nat) => LeScore(scores, i, j);
    var indices := Indices(|scores|);
    r := Sort(indices, le);
    SortSorted(indices, le);
    SortKeepsDistinct(indices, le);
    forall k, l | 0 <= k < l < |r| && r[k] < |scores| && r[l] < |scores|
      ensures scores[r[k]] > scores[r[l]] || (scores[r[k]] == scores[r[l]] && r[k] < r[l])
    {
      assert le(r[k], r[l]) && r[k] != r[l];
    }
  }

  /** There is only one ranking. */
  lemma RankingUnique(scores: seq<real>, r: seq<nat>, q: seq<nat>)
    requires IsRanking(scores, r) && IsRanking(scores, q)
    ensures r == q
  {
    var le := (i: nat, j: nat) => LeScore(scores, i, j);
    RankingSorted(scores, r);
    RankingSorted(scores, q);
    assert TellsApart(r, le);
    SortedUnique(r, q, le);
  }

  lemma RankingSorted(scores: seq<real>, r: seq<nat>)
    requires IsRanking(scores, r)
    ensures SortedBy(r, (i: nat, j: nat) => LeScore(scores, i, j))
  {
    SameMembers(Indices(|scores|), r);
    forall k | 0 <= k < |r| ensures r[k] < |scores| {
      assert r[k] in Indices(|scores|);
    }
  }
}
