/**
 * One run of fetch_questions.py: load the exclusions from the old
 * questions.json, ask the model for new questions, clean the reply, decode it,
 * and only then overwrite questions.json with the decoded data.
 *
 * The model call, `json.load`/`json.loads` and `json.dump` are parameters:
 * `generate` is the model call (`None` when it raises), `decode` the JSON
 * decoder (`None` when it raises) and `encode` the text `json.dump` writes.
 */
module FetchQuestions {
  import opened Wrappers
  import opened Json
  import opened Sanitizer
  import opened Exclusions

  datatype RunError =
    | GenerationFailed                 // the model call raised (line 54)
    | InvalidJson(content: string)     // `json.loads` raised on the cleaned reply (lines 69-75)

  datatype Outcome = Saved(data: Json) | Failed(error: RunError)

  /**
   * The script from line 12 to line 79, given the state of questions.json
   * before the run; `savedFile` is its state afterwards. The file is written
   * once, after a successful decode, and on every failure it is left as it was.
   */
  method Run(
    questionsFile: StoredFile,
    generate: seq<Json> -> Option<string>,
    decode: string -> Option<Json>,
    encode: Json -> string
  ) returns (outcome: Outcome, savedFile: StoredFile)
    ensures var reply := generate(LoadExclusions(questionsFile, decode));
      && (outcome == Failed(GenerationFailed) <==> reply.None?)
      && (outcome.Saved? <==> reply.Some? && decode(Sanitize(reply.value)).Some?)
      && (outcome.Saved? ==> decode(Sanitize(reply.value)) == Some(outcome.data))
      && (outcome.Failed? && outcome.error.InvalidJson? ==>
            reply.Some? && outcome.error.content == Sanitize(reply.value))
    ensures outcome.Failed? ==> savedFile == questionsFile
    ensures outcome.Saved? ==> savedFile == Stored(encode(outcome.data))
    ensures outcome.Saved? && decode(encode(outcome.data)) == Some(outcome.data) ==>
      LoadExclusions(savedFile, decode) ==
        if IsQuestionSet(outcome.data) then QuestionTexts(outcome.data) else []
  {
    savedFile := questionsFile;
    var exclusions := LoadExclusions(questionsFile, decode);
    var response := generate(exclusions);
    if response.None? {
      outcome := Failed(GenerationFailed);
      return;
    }
    var content := Sanitize(response.value);
    var data := decode(content);
    if data.None? {
      outcome := Failed(InvalidJson(content));
      return;
    }
    savedFile := Stored(encode(data.value));
    outcome := Saved(data.value);
  }
}
