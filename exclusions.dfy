/**
 * The exclusion list of fetch_questions.py (lines 12-19): the "question"
 * fields of the previously saved questions.json, in order, or the empty list
 * when there is no file or anything about reading it raises.
 */
module Exclusions {
  import opened Wrappers
  import opened Json

  /** What questions.json holds before the run writes it. */
  datatype StoredFile = Missing | Unreadable | Stored(text: string)

  /**
   * The shape the script expects of a question set: a dict whose "questions"
   * entry is a list of dicts, each with a "question" entry.
   */
  predicate IsQuestionSet(data: Json) {
    && HasField(data, "questions")
    && data.fields["questions"].JArray?
    && var questions := data.fields["questions"].items;
       forall k :: 0 <= k < |questions| ==> HasField(questions[k], "question")
  }

  /** Reference definition: the "question" field of every stored question, in order. */
  function QuestionTexts(data: Json): (texts: seq<Json>)
    requires IsQuestionSet(data)
  {
    var questions := data.fields["questions"].items;
    seq(|questions|, k requires 0 <= k < |questions| => questions[k].fields["question"])
  }

  /** `[q[key] for q in items]` over a list: it raises as soon as one subscript raises. */
  function SubscriptEach(items: seq<Json>, key: string): (r: Option<seq<Json>>)
    ensures r.Some? <==> forall k :: 0 <= k < |items| ==> HasField(items[k], key)
    ensures r.Some? ==> |r.value| == |items|
    ensures r.Some? ==> forall k :: 0 <= k < |items| ==> r.value[k] == items[k].fields[key]
  {
    if items == [] then Some([])
    else
      match Subscript(items[0], key)
      case None => None
      case Some(first) =>
        match SubscriptEach(items[1..], key)
        case None =>
          assert forall k :: 1 <= k < |items| ==> items[k] == items[1..][k - 1];
          None
        case Some(rest) => Some([first] + rest)
  }

  /**
   * `[q["question"] for q in questions]` for any decoded value: a list is
   * iterated element by element; an empty string or an empty dict gives no
   * elements; a non-empty string or dict yields str elements, and
   * str["question"] raises TypeError; any other value is not iterable.
   */
  function QuestionFields(questions: Json): (r: Option<seq<Json>>)
    ensures questions.JArray? ==>
      (r.Some? <==> forall k :: 0 <= k < |questions.items| ==> HasField(questions.items[k], "question"))
    ensures questions.JArray? && r.Some? ==>
      |r.value| == |questions.items|
      && forall k :: 0 <= k < |questions.items| ==> r.value[k] == questions.items[k].fields["question"]
    ensures !questions.JArray? ==> (r == Some([]) <==> questions == JString("") || questions == JObject(map[]))
    ensures !questions.JArray? ==> r == None || r == Some([])
  {
    match questions
    case JArray(items) => SubscriptEach(items, "question")
    case JString(s) => if s == "" then Some([]) else None
    case JObject(fields) => if fields == map[] then Some([]) else None
    case _ => None
  }

  /**
   * Line 17 on the decoded old file: `old_data.get("questions", [])` and the
   * comprehension over it.
   */
  function ExtractExclusions(oldData: Json): (r: Option<seq<Json>>)
    ensures !oldData.JObject? ==> r == None
    ensures oldData.JObject? && "questions" !in oldData.fields ==> r == Some([])
    ensures IsQuestionSet(oldData) ==> r == Some(QuestionTexts(oldData))
    ensures r.Some? && r.value != [] ==> IsQuestionSet(oldData)
  {
    match Get(oldData, "questions", JArray([]))
    case None => None
    case Some(questions) =>
      var r := QuestionFields(questions);
      assert IsQuestionSet(oldData) ==> r.value == QuestionTexts(oldData);
      r
  }

  /**
   * Lines 12-19: start from the empty list, and replace it by the extracted
   * fields only when the file exists, decodes and the extraction does not raise.
   * The result is the stored question texts exactly when the old file holds a
   * question set, and empty otherwise.
   */
  function LoadExclusions(file: StoredFile, decode: string -> Option<Json>): (exclusions: seq<Json>)
    ensures exclusions ==
      if file.Stored? && decode(file.text).Some? && IsQuestionSet(decode(file.text).value)
      then QuestionTexts(decode(file.text).value)
      else []
  {
    match file
    case Missing => []
    case Unreadable => []
    case Stored(text) =>
      match decode(text)
      case None => []
      case Some(oldData) =>
        match ExtractExclusions(oldData)
        case None => []
        case Some(fields) => fields
  }
}
