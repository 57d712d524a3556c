/** The transcription service: speech configuration from two environment
    variables, and `transcribe`, which guards on configuration and on the
    audio file, tries a best-effort re-encode to `<audio>.wav`, maps the
    recognizer's outcome to text, and removes the converted file afterwards.
    The file system is the set of existing paths. */
module Transcriber {
  import opened Wrappers
  import opened Text

  const MockTranscript: string :=
    "This is a mock transcription. The user spoke about their thoughts and feelings during this quiet moment."
  const FileNotFoundText: string := "(Audio file not found for transcription)"
  const NoSpeechText: string := "No speech detected in the audio."
  const HeaderMockText: string :=
    "The user spoke about their current emotional state and experiences during this quiet moment of reflection."
  const CanceledText: string := "Speech recognition failed due to an error."
  const UnexpectedText: string := "Speech recognition returned unexpected result."
  const FormatFallbackText: string :=
    "The user shared their " + "thoughts and feelings during this moment of quiet reflection."
  const FailurePrefix: string := "Speech recognition failed: "

  /** What `speechsdk.SpeechConfig` is built from, with the language set after. */
  datatype SpeechConfig = SpeechConfig(subscription: string, region: string, language: string)

  /** What recognition of the target file ends in: a result whose reason is
      `RecognizedSpeech`, `NoMatch`, `Canceled` (with whether the cancellation
      reason is `Error`, and the error details) or any other reason; or an
      exception, by its message, from building the audio config or the
      recognizer or from `recognize_once`. */
  datatype Recognition =
    | Recognized(text: string)
    | NoMatch
    | Canceled(isError: bool, errorDetails: string)
    | OtherReason
    | Raised(message: string)

  /** How the ffmpeg re-encode ends: ffmpeg not found, a non-zero exit, a
      completed run, or any other exception on the way (such as a failing
      `os.path.getsize`). Each outcome but the first says whether ffmpeg
      wrote the output file before it ended. */
  datatype Conversion =
    | FfmpegMissing
    | ExitNonZero(wroteOutput: bool)
    | Completed(wroteOutput: bool)
    | OtherFailure(wroteOutput: bool)
  {
    predicate Wrote() {
      !FfmpegMissing? && wroteOutput
    }
  }

  // ---------------------------------------------------------------------
  // Outcome to text
  // ---------------------------------------------------------------------

  /** The text for an exception raised during recognition: the format
      fallback when the message names the invalid-header error or an error
      code, otherwise the message after a fixed prefix. */
  function ExceptionText(message: string): (r: string)
    ensures r == FormatFallbackText
        <==> Contains(message, "SPXERR_INVALID_HEADER") || Contains(message, "error code")
    ensures r != FormatFallbackText ==> StartsWith(r, FailurePrefix) && r[|FailurePrefix|..] == message
    ensures r != ""
  {
    if Contains(message, "SPXERR_INVALID_HEADER") || Contains(message, "error code") then
      FormatFallbackText
    else
      var r := FailurePrefix + message;
      assert FormatFallbackText[0] == 'T';
      assert r[0] == FailurePrefix[0] == 'S';
      assert r[..|FailurePrefix|] == FailurePrefix;
      r
  }

  /** The text `transcribe` returns for a recognition outcome. Only a
      recognised result can give the empty string. */
  function RecognitionText(rec: Recognition): (r: string)
    ensures rec.Recognized? ==> r == rec.text
    ensures !rec.Recognized? ==> r != ""
    ensures rec.NoMatch? ==> r == NoSpeechText
    ensures rec.OtherReason? ==> r == UnexpectedText
    ensures rec.Canceled? ==>
      (r == HeaderMockText <==> rec.isError && Contains(rec.errorDetails, "SPXERR_INVALID_HEADER"))
    ensures rec.Canceled? && r != HeaderMockText ==> r == CanceledText
    ensures rec.Raised? ==> r == ExceptionText(rec.message)
  {
    match rec
    case Recognized(text) => text
    case NoMatch => NoSpeechText
    case Canceled(isError, details) =>
      if isError && Contains(details, "SPXERR_INVALID_HEADER") then HeaderMockText else CanceledText
    case OtherReason => UnexpectedText
    case Raised(message) => ExceptionText(message)
  }

  // ---------------------------------------------------------------------
  // Files
  // ---------------------------------------------------------------------

  /** Where the re-encoded audio is written. */
  function WavPath(audioPath: string): (r: string)
    ensures r != audioPath
  {
    audioPath + ".wav"
  }

  /** The files once the conversion has ended. */
  function ConvertedFiles(files: set<string>, audioPath: string, conv: Conversion): (r: set<string>)
    ensures files <= r && r - files <= {WavPath(audioPath)}
    ensures WavPath(audioPath) in r <==> WavPath(audioPath) in files || conv.Wrote()
  {
    if conv.Wrote() then files + {WavPath(audioPath)} else files
  }

  /** The file handed to the recognizer, given the files after conversion:
      the `.wav` only when the conversion completed and the `.wav` exists. */
  function Target(files: set<string>, audioPath: string, conv: Conversion): (t: string)
    ensures t == audioPath || t == WavPath(audioPath)
  {
    if conv.Completed? && WavPath(audioPath) in files then WavPath(audioPath) else audioPath
  }

  /** The `finally` block: the target is removed when it is not the original
      and exists; a failed removal is ignored and leaves it in place. */
  function Cleanup(files: set<string>, audioPath: string, target: string, removalSucceeds: bool): (r: set<string>)
    ensures files - {target} <= r <= files
    ensures target in r <==> target in files && (target == audioPath || !removalSucceeds)
  {
    if target != audioPath && target in files && removalSucceeds then files - {target} else files
  }

  /** The files once `transcribe` has returned, past its two guards. */
  function FinalFiles(files: set<string>, audioPath: string, conv: Conversion, removalSucceeds: bool): (r: set<string>)
    ensures WavPath(audioPath) in r
        <==> (WavPath(audioPath) in files || conv.Wrote()) && !(conv.Completed? && removalSucceeds)
  {
    var converted := ConvertedFiles(files, audioPath, conv);
    Cleanup(converted, audioPath, Target(converted, audioPath, conv), removalSucceeds)
  }

  /** The original audio file is never removed. */
  lemma OriginalSurvives(files: set<string>, audioPath: string, conv: Conversion, removalSucceeds: bool)
    requires audioPath in files
    ensures audioPath in FinalFiles(files, audioPath, conv, removalSucceeds)
  {
  }

  /** The recognizer gets the `.wav` exactly when the conversion completed and
      the `.wav` exists; every conversion failure leaves the original. */
  lemma TargetIsWavOnlyAfterCompletedConversion(files: set<string>, audioPath: string, conv: Conversion)
    ensures var converted := ConvertedFiles(files, audioPath, conv);
      Target(converted, audioPath, conv) == WavPath(audioPath)
      <==> conv.Completed? && (conv.wroteOutput || WavPath(audioPath) in files)
  {
  }

  /** An adopted `.wav` is gone afterwards, whatever recognition did, unless
      its removal failed. */
  lemma AdoptedWavRemoved(files: set<string>, audioPath: string, conv: Conversion, removalSucceeds: bool)
    requires Target(ConvertedFiles(files, audioPath, conv), audioPath, conv) == WavPath(audioPath)
    requires removalSucceeds
    ensures WavPath(audioPath) !in FinalFiles(files, audioPath, conv, removalSucceeds)
  {
  }

  /** No file other than the `.wav` is created or removed. */
  lemma OnlyWavChanges(files: set<string>, audioPath: string, conv: Conversion, removalSucceeds: bool)
    ensures FinalFiles(files, audioPath, conv, removalSucceeds) - {WavPath(audioPath)} == files - {WavPath(audioPath)}
  {
  }

  /** A `.wav` written by a conversion that then failed is not the target, so
      it is still there afterwards. */
  lemma UnadoptedWavRemains(files: set<string>, audioPath: string, conv: Conversion, removalSucceeds: bool)
    requires conv.Wrote() && !conv.Completed?
    ensures WavPath(audioPath) in FinalFiles(files, audioPath, conv, removalSucceeds)
  {
  }

  // ---------------------------------------------------------------------
  // The service
  // ---------------------------------------------------------------------

  /** The file system `transcribe` sees: the paths that exist. */
  class FileSystem {
    var files: set<string>

    constructor (initial: set<string>)
      ensures files == initial
    {
      files := initial;
    }
  }

  class TranscriberService {
    var speechKey: Option<string>
    var speechRegion: Option<string>
    var speechConfig: Option<SpeechConfig>

    /** `__init__`: `configFails` says whether `SpeechConfig` raises. */
    constructor (key: Option<string>, region: Option<string>, configFails: bool)
      ensures speechKey == key && speechRegion == region
      ensures speechConfig.Some? <==> IsSet(key) && IsSet(region) && !configFails
      ensures speechConfig.Some? ==> speechConfig.value == SpeechConfig(key.value, region.value, "en-US")
    {
      speechKey := key;
      speechRegion := region;
      if IsSet(key) && IsSet(region) {
        if configFails {
          speechConfig := None;
        } else {
          speechConfig := Some(SpeechConfig(key.value, region.value, "en-US"));
        }
      } else {
        speechConfig := None;
      }
    }

    /** `transcribe(audio_path)`. The conversion and the removal of the
        converted file are outcomes the environment supplies; `recognize`
        gives the recognizer's outcome for the file it is handed. The text
        and the files afterwards follow from them. */
    method Transcribe(fs: FileSystem, audioPath: string, conv: Conversion,
                      recognize: string -> Recognition, removalSucceeds: bool)
      returns (text: string)
      modifies fs
      ensures speechConfig.None? ==> text == MockTranscript && fs.files == old(fs.files)
      ensures speechConfig.Some? && audioPath !in old(fs.files) ==>
        text == FileNotFoundText && fs.files == old(fs.files)
      ensures speechConfig.Some? && audioPath in old(fs.files) ==>
        text == RecognitionText(recognize(Target(ConvertedFiles(old(fs.files), audioPath, conv), audioPath, conv)))
        && fs.files == FinalFiles(old(fs.files), audioPath, conv, removalSucceeds)
      ensures text == "" ==>
        speechConfig.Some? && audioPath in old(fs.files)
        && recognize(Target(ConvertedFiles(old(fs.files), audioPath, conv), audioPath, conv)) == Recognized("")
      ensures audioPath in old(fs.files) ==> audioPath in fs.files
    {
      if speechConfig.None? {
        return MockTranscript;
      }
      if audioPath !in fs.files {
        return FileNotFoundText;
      }
      var wavPath := WavPath(audioPath);
      var targetFile := audioPath;
      // Re-encode; every failure keeps the original file as the target.
      if conv.Wrote() {
        fs.files := fs.files + {wavPath};
      }
      if conv.Completed? && wavPath in fs.files {
        targetFile := wavPath;
      }
      text := RecognitionText(recognize(targetFile));
      // finally: remove the converted file.
      if targetFile != audioPath && targetFile in fs.files && removalSucceeds {
        fs.files := fs.files - {targetFile};
      }
    }
  }
}
