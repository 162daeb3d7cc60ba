/** One run of `generate_srt`: conversion, recognition, assembly and the
    cleanup that follows on every exit. The transcoder's success, the
    recognition call and the existence check of the temporary file are
    inputs of the run. */
module Pipeline {
  import opened Wrappers
  import opened TempFiles
  import opened Subtitles

  /** Failures that leave `generate_srt`: the two it raises itself, and
      any exception from the recognition call, which propagates unchanged. */
  datatype RunError =
    | Raised(error: Error)
    | CallFault(description: string)

  /** The recognition call: the backend's response, or the exception the
      call raised (a timeout or a refused connection). */
  type Call = Result<Response, string>

  /** What the run returns or raises after the call has produced `call`:
      a call fault, a service error for a non-200 status, "no speech" when
      both lookups are empty, or the document. */
  function Outcome(call: Call): (r: Result<string, RunError>)
    ensures call.Failure? ==> r == Failure(CallFault(call.error))
    ensures call.Success? && call.value.statusCode != OkStatus ==>
      r == Failure(Raised(ServiceError(call.value.code, call.value.message)))
    ensures call.Success? && call.value.statusCode == OkStatus && FirstNonEmpty(Lookups(call.value.output)) == [] ==>
      r == Failure(Raised(NoSpeechDetected))
    ensures r.Success? <==>
      call.Success? && call.value.statusCode == OkStatus &&
      FirstNonEmpty(Lookups(call.value.output)) != []
    ensures r.Success? ==> r.value == Document(FirstNonEmpty(Lookups(call.value.output)))
  {
    match call
    case Failure(fault) => Failure(CallFault(fault))
    case Success(res) =>
      match Interpret(res)
      case Success(srt) => Success(srt)
      case Failure(e) => Failure(Raised(e))
  }

  /** `generate_srt(audio_file_path, api_key)`. `converted` is whether the
      `ffmpeg` invocation succeeded, `recognize` is `rec.call`, and
      `tempExists` is what `os.path.exists(temp_wav)` answers in the
      `finally` clause. Returns the outcome, the file sent to the
      recogniser, and the file removed by the cleanup. */
  method GenerateSrt(audioFilePath: string, converted: bool, recognize: string -> Call, tempExists: bool)
    returns (outcome: Result<string, RunError>, audioSource: string, removed: Option<string>)
    ensures audioSource == AudioSource(audioFilePath, converted)
    ensures outcome == Outcome(recognize(audioSource))
    ensures removed == CleanupTarget(audioFilePath, tempExists)
  {
    audioSource := audioFilePath;
    var tempWav := TempPath(audioFilePath);
    if converted {
      audioSource := tempWav;
    } else {
      audioSource := audioFilePath;
    }
    var call := recognize(audioSource);
    match call {
      case Failure(fault) =>
        outcome := Failure(CallFault(fault));
      case Success(res) =>
        if res.statusCode == OkStatus {
          var sentences := res.output.sentence.GetOr([]);
          if sentences == [] {
            sentences := res.output.sentences.GetOr([]);
          }
          SelectedSentences(res.output);
          if sentences == [] {
            outcome := Failure(Raised(NoSpeechDetected));
          } else {
            var srt := BuildSrt(sentences);
            outcome := Success(srt);
          }
        } else {
          outcome := Failure(Raised(ServiceError(res.code, res.message)));
        }
    }
    // The `finally` clause.
    removed := if tempWav != [] && tempExists && tempWav != audioFilePath then Some(tempWav) else None;
  }
}
