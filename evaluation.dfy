/** The evaluation script evaluation_script.py: it loads the labelled test table,
    trims its columns, fills missing expected answers from the tag/answer table,
    sends every question to the search service, compares the top prediction with
    the expected tag and answer, and reports the two counts and accuracies.

    The search service is a parameter: `service(i, q)` is what the request for
    the i-th row, with query q, came back with. Logging and printing are left
    out; what is kept of them is, per row, whether a mismatch entry is written.
 */
module Evaluation {
  import opened Wrappers
  import opened Strings

  // ---------------------------------------------------------------------------
  // Tables as read from CSV

  /** One CSV cell: a text, or a missing value (NaN). */
  datatype Cell = Value(text: string) | Missing

  /** A table as read by `read_csv`: named columns, each `height` cells long. */
  datatype Table = Table(columns: map<string, seq<Cell>>, height: nat) {
    ghost predicate WellFormed() {
      forall name | name in columns :: |columns[name]| == height
    }
  }

  /** `astype(str)`: a missing value becomes the text "nan". */
  function AsText(c: Cell): string {
    match c
    case Value(t) => t
    case Missing => "nan"
  }

  /** `fillna("")` and then `astype(str)`: a missing value becomes "". */
  function OrEmpty(c: Cell): string {
    match c
    case Value(t) => t
    case Missing => ""
  }

  /** The evaluation table must have a "question" and a "tag" column. */
  predicate HasRequiredColumns(data: Table) {
    "question" in data.columns && "tag" in data.columns
  }

  /** One cleaned question or tag cell. */
  function CleanText(c: Cell): (r: string)
    ensures IsStripped(r)
    ensures c.Value? ==> r == Strip(c.text)
    ensures c.Missing? ==> r == "nan"
  {
    Strip(AsText(c))
  }

  /** One cleaned answer cell. */
  function CleanAnswer(c: Cell): (r: string)
    ensures IsStripped(r)
    ensures c.Value? ==> r == Strip(c.text)
    ensures c.Missing? ==> r == ""
  {
    Strip(OrEmpty(c))
  }

  /** A cell's text wrapped in whitespace cleans to the text itself, as a question,
      a tag or an answer. */
  lemma CleanedCell(pre: string, core: string, post: string)
    requires AllSpace(pre) && AllSpace(post) && IsStripped(core)
    ensures CleanText(Value(pre + core + post)) == core
    ensures CleanAnswer(Value(pre + core + post)) == core
  {
    StripOf(pre, core, post);
  }

  /** Cleaning a cell twice changes nothing more: a cleaned text is its own cleaning. */
  lemma CleanIdempotent(c: Cell)
    ensures CleanText(Value(CleanText(c))) == CleanText(c)
    ensures CleanAnswer(Value(CleanAnswer(c))) == CleanAnswer(c)
  {
    StripKeepsStripped(CleanText(c));
    StripKeepsStripped(CleanAnswer(c));
  }

  /** The question or tag column after `astype(str).str.strip()`. */
  function TextColumn(data: Table, name: string): (col: seq<string>)
    requires data.WellFormed() && name in data.columns
    ensures |col| == data.height
    ensures forall i | 0 <= i < |col| :: col[i] == CleanText(data.columns[name][i])
    ensures forall i | 0 <= i < |col| :: IsStripped(col[i])
  {
    seq(data.height, i requires 0 <= i < data.height => CleanText(data.columns[name][i]))
  }

  /** The answer column after loading: "" everywhere when the column is absent. */
  function AnswerColumn(data: Table): (col: seq<string>)
    requires data.WellFormed()
    ensures |col| == data.height
    ensures forall i | 0 <= i < |col| :: IsStripped(col[i])
    ensures "answer" !in data.columns ==> forall i | 0 <= i < |col| :: col[i] == ""
    ensures "answer" in data.columns ==>
              forall i | 0 <= i < |col| :: col[i] == CleanAnswer(data.columns["answer"][i])
    ensures "answer" in data.columns ==>
              forall i | 0 <= i < |col| :: data.columns["answer"][i].Missing? ==> col[i] == ""
  {
    if "answer" in data.columns then
      seq(data.height, i requires 0 <= i < data.height => CleanAnswer(data.columns["answer"][i]))
    else
      seq(data.height, i => "")
  }

  // ---------------------------------------------------------------------------
  // The tag -> answer lookup

  /** The tag/answer file, if it exists. */
  datatype MappingFile = Absent | Present(table: Table)

  predicate HasMappingColumns(file: MappingFile) {
    file.Present? && "tag" in file.table.columns && "answer" in file.table.columns
  }

  /** A cleaned column of the tag/answer table: `fillna("")`, `astype(str)`, `strip()`. */
  function MappingColumn(t: Table, name: string): (col: seq<string>)
    requires t.WellFormed() && name in t.columns
    ensures |col| == t.height
    ensures forall i | 0 <= i < |col| :: col[i] == CleanAnswer(t.columns[name][i])
  {
    seq(t.height, i requires 0 <= i < t.height => CleanAnswer(t.columns[name][i]))
  }

  /** `dict(zip(keys, vals))`: the pairs inserted one after another. */
  function Zip(keys: seq<string>, vals: seq<string>): map<string, string>
    requires |keys| == |vals|
  {
    if keys == [] then map[]
    else Zip(keys[..|keys| - 1], vals[..|vals| - 1])[keys[|keys| - 1] := vals[|vals| - 1]]
  }

  /** Position i holds the last occurrence of its key. */
  predicate IsLastOccurrence(keys: seq<string>, i: nat)
    requires i < |keys|
  {
    forall i' | i < i' < |keys| :: keys[i'] != keys[i]
  }

  /** dict(zip(...)) has exactly the keys of the sequence, and a key repeated in
      the sequence maps to the value paired with its last occurrence. */
  lemma {:induction false} ZipLastWins(keys: seq<string>, vals: seq<string>)
    requires |keys| == |vals|
    ensures forall t :: t in Zip(keys, vals) <==> t in keys
    ensures forall i | 0 <= i < |keys| && IsLastOccurrence(keys, i) :: Zip(keys, vals)[keys[i]] == vals[i]
  {
    if keys != [] {
      var n := |keys| - 1;
      var ks, vs := keys[..n], vals[..n];
      ZipLastWins(ks, vs);
      assert keys == ks + [keys[n]];
      forall i | 0 <= i < |keys| && IsLastOccurrence(keys, i)
        ensures Zip(keys, vals)[keys[i]] == vals[i]
      {
        if i < n {
          assert keys[n] != keys[i];
          assert IsLastOccurrence(ks, i);
        }
      }
    }
  }

  /** Lines 53-60: the lookup is empty unless the file exists and has both columns;
      otherwise it maps each cleaned tag to the cleaned answer of its last row. */
  function Lookup(file: MappingFile): (m: map<string, string>)
    requires file.Present? ==> file.table.WellFormed()
    ensures !HasMappingColumns(file) ==> m == map[]
    ensures HasMappingColumns(file) ==>
              var tags := MappingColumn(file.table, "tag");
              var answers := MappingColumn(file.table, "answer");
              && (forall t :: t in m <==> t in tags)
              && (forall i | 0 <= i < |tags| && IsLastOccurrence(tags, i) :: m[tags[i]] == answers[i])
  {
    if HasMappingColumns(file) then
      var tags := MappingColumn(file.table, "tag");
      var answers := MappingColumn(file.table, "answer");
      ZipLastWins(tags, answers);
      Zip(tags, answers)
    else
      map[]
  }

  /** Line 70 for one row: the answer a row has after the backfill. */
  function Backfilled(answer: string, tag: string, lookup: map<string, string>): string {
    if lookup != map[] && answer == "" then
      (if tag in lookup then lookup[tag] else "")
    else
      answer
  }

  // ---------------------------------------------------------------------------
  // The evaluation table, whose columns the script overwrites in place

  class Frame {
    var question: seq<string>
    var tag: seq<string>
    var answer: seq<string>

    ghost predicate Valid()
      reads this
    {
      |tag| == |question| && |answer| == |question|
    }

    /** Lines 45-50: the three columns, trimmed, with "" for a missing answer
        column or a missing answer. */
    constructor Load(data: Table)
      requires data.WellFormed() && HasRequiredColumns(data)
      ensures Valid() && |question| == data.height
      ensures question == TextColumn(data, "question")
      ensures tag == TextColumn(data, "tag")
      ensures answer == AnswerColumn(data)
    {
      question := TextColumn(data, "question");
      tag := TextColumn(data, "tag");
      answer := AnswerColumn(data);
    }

    /** Lines 67-70: with a non-empty lookup, every row whose answer is "" gets
        the lookup's answer for its tag, or "" when the tag is not in it; no
        other row and no other column changes. */
    method Backfill(lookup: map<string, string>)
      requires Valid()
      modifies this
      ensures Valid()
      ensures question == old(question) && tag == old(tag) && |answer| == |old(answer)|
      ensures forall i | 0 <= i < |answer| :: answer[i] == Backfilled(old(answer)[i], tag[i], lookup)
      ensures forall i | 0 <= i < |answer| && old(answer)[i] != "" :: answer[i] == old(answer)[i]
      ensures lookup == map[] ==> answer == old(answer)
    {
      if lookup != map[] {
        var missing := "" in answer;
        if missing {
          var before, tags := answer, tag;
          answer := seq(|before|, i requires 0 <= i < |before| =>
                          if before[i] == "" then (if tags[i] in lookup then lookup[tags[i]] else "")
                          else before[i]);
        } else {
          assert forall i | 0 <= i < |answer| :: answer[i] in answer;
        }
      }
    }
  }

  // ---------------------------------------------------------------------------
  // Search replies and scoring

  /** One element of the reply's "results" list, as far as the script reads it:
      the text of its "tag" and of its "answer" value, None where the key is absent. */
  datatype Hit = Hit(tag: Option<string>, answer: Option<string>)

  /** What one request came back with. Failed: the request raised, the body was
      not JSON, or the reply was not shaped as the script reads it. Replied: the
      "results" value, None where the key is absent or null. */
  datatype Reply = Failed | Replied(results: Option<seq<Hit>>)

  type Service = (nat, string) -> Reply

  /** Lines 92-99: the predicted tag and answer, both trimmed; an empty or absent
      result list predicts "" for both. */
  function Prediction(results: Option<seq<Hit>>): (p: (string, string))
    ensures IsStripped(p.0) && IsStripped(p.1)
    ensures (results.None? || results.value == []) ==> p == ("", "")
    ensures results.Some? && results.value != [] ==>
              p == (Strip(results.value[0].tag.GetOr("")), Strip(results.value[0].answer.GetOr("")))
  {
    if results.None? || results.value == [] then ("", "")
    else (Strip(results.value[0].tag.GetOr("")), Strip(results.value[0].answer.GetOr("")))
  }

  /** What one row contributes: nothing when the request failed, else whether the
      tag and whether the answer matched. */
  datatype RowOutcome = Errored | Compared(tagMatch: bool, answerMatch: bool) {
    predicate TagMatched() { Compared? && tagMatch }
    predicate AnswerMatched() { Compared? && answerMatch }
    /** A mismatch entry is written for the row. */
    predicate Mismatch() { !(TagMatched() && AnswerMatched()) }
  }

  /** Lines 88-108 for one row. */
  function Score(expectedTag: string, expectedAnswer: string, reply: Reply): (o: RowOutcome)
    ensures o.Errored? <==> reply.Failed?
    ensures reply.Replied? ==>
              && (o.TagMatched() <==> Prediction(reply.results).0 == expectedTag)
              && (o.AnswerMatched() <==> Prediction(reply.results).1 == expectedAnswer)
    ensures reply.Replied? && (reply.results.None? || reply.results.value == []) ==>
              o == Compared(expectedTag == "", expectedAnswer == "")
  {
    match reply
    case Failed => Errored
    case Replied(results) =>
      var (predictedTag, predictedAnswer) := Prediction(results);
      Compared(predictedTag == expectedTag, predictedAnswer == expectedAnswer)
  }

  /** Only the top hit is compared: the hits after it do not change the outcome. */
  lemma TopHitDecides(expectedTag: string, expectedAnswer: string, h: Hit, rest1: seq<Hit>, rest2: seq<Hit>)
    ensures Score(expectedTag, expectedAnswer, Replied(Some([h] + rest1)))
         == Score(expectedTag, expectedAnswer, Replied(Some([h] + rest2)))
  {
    assert ([h] + rest1)[0] == h && ([h] + rest2)[0] == h;
  }

  /** A top hit whose tag and answer are the expected (trimmed) ones, with any
      whitespace around them, matches on both; one whose trimmed tag differs from
      the expected tag does not match on the tag. */
  lemma PaddedTopHitMatches(expectedTag: string, expectedAnswer: string,
                            pre: string, post: string, rest: seq<Hit>, other: string)
    requires IsStripped(expectedTag) && IsStripped(expectedAnswer)
    requires AllSpace(pre) && AllSpace(post)
    ensures var hit := Hit(Some(pre + expectedTag + post), Some(pre + expectedAnswer + post));
            var o := Score(expectedTag, expectedAnswer, Replied(Some([hit] + rest)));
            o.TagMatched() && o.AnswerMatched() && !o.Mismatch()
    ensures Strip(other) != expectedTag ==>
              !Score(expectedTag, expectedAnswer, Replied(Some([Hit(Some(other), None)] + rest))).TagMatched()
  {
    var hit := Hit(Some(pre + expectedTag + post), Some(pre + expectedAnswer + post));
    assert ([hit] + rest)[0] == hit;
    assert ([Hit(Some(other), None)] + rest)[0] == Hit(Some(other), None);
    StripOf(pre, expectedTag, post);
    StripOf(pre, expectedAnswer, post);
  }

  /** The tag match does not depend on the expected answer, nor the answer match
      on the expected tag: the two are counted independently. */
  lemma MatchesIndependent(tag1: string, tag2: string, answer1: string, answer2: string, reply: Reply)
    ensures Score(tag1, answer1, reply).TagMatched() == Score(tag1, answer2, reply).TagMatched()
    ensures Score(tag1, answer1, reply).AnswerMatched() == Score(tag2, answer1, reply).AnswerMatched()
  {
  }

  /** The outcome of every row of the table. */
  function Outcomes(question: seq<string>, tag: seq<string>, answer: seq<string>, service: Service): (os: seq<RowOutcome>)
    requires |tag| == |question| && |answer| == |question|
    ensures |os| == |question|
  {
    seq(|question|, i requires 0 <= i < |question| => Score(tag[i], answer[i], service(i, question[i])))
  }

  /** The rows whose outcome satisfies p. */
  function RowsWhere(os: seq<RowOutcome>, p: RowOutcome -> bool): set<nat> {
    set i: nat | i < |os| && p(os[i])
  }

  function TagMatched(o: RowOutcome): bool { o.TagMatched() }
  function AnswerMatched(o: RowOutcome): bool { o.AnswerMatched() }
  function IsError(o: RowOutcome): bool { o.Errored? }

  /** One more row adds itself to the rows where p holds, if p holds of it, and
      changes nothing else. */
  lemma RowsWhereAppend(os: seq<RowOutcome>, o: RowOutcome, p: RowOutcome -> bool)
    ensures RowsWhere(os + [o], p) == RowsWhere(os, p) + (if p(o) then {|os|} else {})
    ensures |RowsWhere(os + [o], p)| == |RowsWhere(os, p)| + (if p(o) then 1 else 0)
  {
    var before, after := RowsWhere(os, p), RowsWhere(os + [o], p);
    assert after == before + (if p(o) then {|os|} else {}) by {
      forall i | i in after ensures i in before || (p(o) && i == |os|) {
        if i < |os| {
          assert (os + [o])[i] == os[i];
        }
      }
      forall i | i in before ensures i in after {
        assert (os + [o])[i] == os[i];
      }
    }
    assert |os| !in before;
  }

  /** Counting one more row of `os`. */
  lemma CountStep(os: seq<RowOutcome>, idx: nat, p: RowOutcome -> bool)
    requires idx < |os|
    ensures |RowsWhere(os[..idx + 1], p)| == |RowsWhere(os[..idx], p)| + (if p(os[idx]) then 1 else 0)
  {
    assert os[..idx + 1] == os[..idx] + [os[idx]];
    RowsWhereAppend(os[..idx], os[idx], p);
  }

  /** Whether a mismatch entry is written, row by row. */
  function Flags(os: seq<RowOutcome>): (f: seq<bool>)
    ensures |f| == |os|
  {
    seq(|os|, i requires 0 <= i < |os| => os[i].Mismatch())
  }

  /** The flags of one more row. */
  lemma FlagsStep(os: seq<RowOutcome>, idx: nat)
    requires idx < |os|
    ensures Flags(os[..idx + 1]) == Flags(os[..idx]) + [os[idx].Mismatch()]
  {
  }

  /** Rows of two kinds that exclude each other number at most all rows. */
  lemma {:induction false} DisjointRowsBound(os: seq<RowOutcome>, p: RowOutcome -> bool, q: RowOutcome -> bool)
    requires forall o :: !(p(o) && q(o))
    ensures |RowsWhere(os, p)| + |RowsWhere(os, q)| <= |os|
  {
    if os != [] {
      var init := os[..|os| - 1];
      assert os == init + [os[|os| - 1]];
      DisjointRowsBound(init, p, q);
      RowsWhereAppend(init, os[|os| - 1], p);
      RowsWhereAppend(init, os[|os| - 1], q);
    }
  }

  /** Lines 74-143: the loop over the rows. Each row adds one to `correctTag`
      exactly when its tag matched and one to `correctAnswer` exactly when its
      answer matched; a failed request adds to neither and the loop goes on;
      `mismatch[i]` says whether a mismatch entry is written for row i. */
  method Evaluate(question: seq<string>, tag: seq<string>, answer: seq<string>, service: Service)
    returns (correctTag: nat, correctAnswer: nat, mismatch: seq<bool>)
    requires |tag| == |question| && |answer| == |question|
    ensures var os := Outcomes(question, tag, answer, service);
            && correctTag == |RowsWhere(os, TagMatched)|
            && correctAnswer == |RowsWhere(os, AnswerMatched)|
            && correctTag + |RowsWhere(os, IsError)| <= |question|
            && correctAnswer + |RowsWhere(os, IsError)| <= |question|
    ensures |mismatch| == |question|
    ensures forall i | 0 <= i < |question| ::
              mismatch[i] <==> Outcomes(question, tag, answer, service)[i].Mismatch()
  {
    ghost var os := Outcomes(question, tag, answer, service);
    correctTag, correctAnswer, mismatch := 0, 0, [];
    var total := |question|;
    for idx := 0 to total
      invariant correctTag == |RowsWhere(os[..idx], TagMatched)|
      invariant correctAnswer == |RowsWhere(os[..idx], AnswerMatched)|
      invariant mismatch == Flags(os[..idx])
    {
      ghost var o := os[idx];
      CountStep(os, idx, TagMatched);
      CountStep(os, idx, AnswerMatched);
      FlagsStep(os, idx);
      var reply := service(idx, question[idx]);
      assert o == Score(tag[idx], answer[idx], reply);
      var flag: bool;
      match reply {
        case Failed =>
          flag := true;
        case Replied(results) =>
          var (predictedTag, predictedAnswer) := Prediction(results);
          var tagMatch := predictedTag == tag[idx];
          var answerMatch := predictedAnswer == answer[idx];
          if tagMatch {
            correctTag := correctTag + 1;
          }
          if answerMatch {
            correctAnswer := correctAnswer + 1;
          }
          flag := !tagMatch || !answerMatch;
      }
      assert flag == o.Mismatch();
      mismatch := mismatch + [flag];
    }
    assert os[..total] == os;
    DisjointRowsBound(os, TagMatched, IsError);
    DisjointRowsBound(os, AnswerMatched, IsError);
  }

  // ---------------------------------------------------------------------------
  // Summary

  /** A product with a positive factor has the sign of the other factor. */
  lemma NonNegativeFactor(a: real, t: real)
    requires t > 0.0
    ensures a * t >= 0.0 ==> a >= 0.0
  {
  }

  /** Lines 146-147: `correct / total * 100`, and 0 when there are no rows. */
  function Percent(correct: nat, total: nat): (r: real)
    ensures total == 0 ==> r == 0.0
    ensures total > 0 ==> r * (total as real) == (correct as real) * 100.0
    ensures correct <= total ==> 0.0 <= r <= 100.0
    ensures correct == total ==> r == (if total == 0 then 0.0 else 100.0)
  {
    if total == 0 then 0.0
    else
      var c, t := correct as real, total as real;
      var q := c / t;
      assert q * t == c;
      NonNegativeFactor(q, t);
      assert (1.0 - q) * t == t - c;
      NonNegativeFactor(1.0 - q, t);
      assert (q - 1.0) * t == c - t;
      NonNegativeFactor(q - 1.0, t);
      assert (q * 100.0) * t == c * 100.0;
      q * 100.0
  }

  datatype Summary = Summary(
    total: nat,
    correctTag: nat,
    correctAnswer: nat,
    tagAccuracy: real,
    answerAccuracy: real,
    mismatch: seq<bool>)

  datatype LoadError = MissingQuestionOrTag

  /** The evaluation table after loading and backfill, as the three columns. */
  function LoadedColumns(data: Table, file: MappingFile): (cols: (seq<string>, seq<string>, seq<string>))
    requires data.WellFormed() && HasRequiredColumns(data)
    requires file.Present? ==> file.table.WellFormed()
    ensures |cols.0| == data.height && |cols.1| == data.height && |cols.2| == data.height
  {
    var tags := TextColumn(data, "tag");
    var answers := AnswerColumn(data);
    var lookup := Lookup(file);
    (TextColumn(data, "question"), tags,
     seq(data.height, i requires 0 <= i < data.height => Backfilled(answers[i], tags[i], lookup)))
  }

  /** The summary reported for the loaded columns: the row count, both match
      counts, both accuracies and the rows with a mismatch entry. */
  function SummaryOf(question: seq<string>, tag: seq<string>, answer: seq<string>, service: Service): (s: Summary)
    requires |tag| == |question| && |answer| == |question|
    ensures s.total == |question| && |s.mismatch| == |question|
    ensures s.correctTag <= s.total && s.correctAnswer <= s.total
    ensures 0.0 <= s.tagAccuracy <= 100.0 && 0.0 <= s.answerAccuracy <= 100.0
  {
    var os := Outcomes(question, tag, answer, service);
    var correctTag, correctAnswer := |RowsWhere(os, TagMatched)|, |RowsWhere(os, AnswerMatched)|;
    DisjointRowsBound(os, TagMatched, IsError);
    DisjointRowsBound(os, AnswerMatched, IsError);
    Summary(|question|, correctTag, correctAnswer,
            Percent(correctTag, |question|), Percent(correctAnswer, |question|),
            seq(|question|, i requires 0 <= i < |question| => os[i].Mismatch()))
  }

  /** The summary the script reports for a table that has the required columns. */
  function ExpectedSummary(data: Table, file: MappingFile, service: Service): (s: Summary)
    requires data.WellFormed() && HasRequiredColumns(data)
    requires file.Present? ==> file.table.WellFormed()
    ensures s.total == data.height && |s.mismatch| == data.height
    ensures s.correctTag <= s.total && s.correctAnswer <= s.total
    ensures 0.0 <= s.tagAccuracy <= 100.0 && 0.0 <= s.answerAccuracy <= 100.0
  {
    var cols := LoadedColumns(data, file);
    SummaryOf(cols.0, cols.1, cols.2, service)
  }

  /** Lines 74-147: score every row and compute the two accuracies. */
  method Report(question: seq<string>, tag: seq<string>, answer: seq<string>, service: Service) returns (s: Summary)
    requires |tag| == |question| && |answer| == |question|
    ensures s == SummaryOf(question, tag, answer, service)
  {
    var total := |question|;
    var correctTag, correctAnswer, mismatch := Evaluate(question, tag, answer, service);
    ghost var os := Outcomes(question, tag, answer, service);
    assert mismatch == seq(total, i requires 0 <= i < total => os[i].Mismatch());
    var tagAcc := Percent(correctTag, total);
    var ansAcc := Percent(correctAnswer, total);
    s := Summary(total, correctTag, correctAnswer, tagAcc, ansAcc, mismatch);
  }

  /** Lines 45-70: load the evaluation table, build the lookup and backfill the
      missing answers. */
  method Prepare(data: Table, file: MappingFile) returns (question: seq<string>, tag: seq<string>, answer: seq<string>)
    requires data.WellFormed() && HasRequiredColumns(data)
    requires file.Present? ==> file.table.WellFormed()
    ensures (question, tag, answer) == LoadedColumns(data, file)
  {
    var frame := new Frame.Load(data);
    var lookup := Lookup(file);
    frame.Backfill(lookup);
    question, tag, answer := frame.question, frame.tag, frame.answer;
    ghost var expected := LoadedColumns(data, file);
    assert question == expected.0 && tag == expected.1;
    assert answer == expected.2;
  }

  /** The whole script: a table without a "question" or "tag" column is refused
      before anything else; otherwise every row is scored and both counts are
      bounded by the number of rows. */
  method Run(data: Table, file: MappingFile, service: Service) returns (r: Result<Summary, LoadError>)
    requires data.WellFormed()
    requires file.Present? ==> file.table.WellFormed()
    ensures r.Failure? <==> !HasRequiredColumns(data)
    ensures r.Success? ==> r.value == ExpectedSummary(data, file, service)
    ensures r.Success? ==>
              && r.value.total == data.height
              && r.value.correctTag <= r.value.total && r.value.correctAnswer <= r.value.total
              && 0.0 <= r.value.tagAccuracy <= 100.0 && 0.0 <= r.value.answerAccuracy <= 100.0
  {
    if !HasRequiredColumns(data) {
      return Failure(MissingQuestionOrTag);
    }
    var question, tag, answer := Prepare(data, file);
    var summary := Report(question, tag, answer, service);
    r := Success(summary);
  }
}
