/** The encoding decision of `DataProcessor._detect_encoding` and
    `_try_fallback_encodings`. Reading the file and the statistical detector
    are not modelled: what opening the file in text mode under an encoding
    and reading 1024 characters does, and
    what the detector answers, are inputs. */
module EncodingResolver {

  /** What opening the file in text mode under one encoding and reading 1024
      characters does. The decoder works on whole buffered chunks, so a decode
      error may come from bytes past the first kilobyte. */
  datatype Probe =
    | Decodes       // the read succeeds
    | DecodeError   // it raises UnicodeDecodeError, the one exception the probes catch
    | Fails         // it raises anything else (an unknown encoding name, an OS error)

  /** The outcome of reading 10 KB and running the detector on it. */
  datatype Detection =
    | Detected(encoding: string, confidence: real)
    | DetectorRaised   // reading or detecting raised; the source logs it and falls back

  /** The encoding chosen, or the exception that escapes the resolver. */
  datatype Outcome = Chosen(encoding: string) | Raised

  const Primary := "shift_jis"
  const LastResort := "utf-8"
  const ConfidenceThreshold := 0.7

  /** The first configured fallback whose probe decodes, "utf-8" when every
      probe fails to decode, and an escaping exception when a probe fails in
      another way before any decodes. */
  function FallbackEncoding(fallbacks: seq<string>, probe: string -> Probe): (r: Outcome)
    ensures r.Chosen? ==> r.encoding == LastResort || r.encoding in fallbacks
    ensures r == Raised ==> exists e :: e in fallbacks && probe(e) == Fails
  {
    if fallbacks == [] then Chosen(LastResort)
    else match probe(fallbacks[0])
      case Decodes => Chosen(fallbacks[0])
      case DecodeError => FallbackEncoding(fallbacks[1..], probe)
      case Fails => Raised
  }

  /** The fallback outcome is decided by the first probe that does not end in
      a decode error: after any prefix of decode errors, the next entry decides
      it, and the end of the list means "utf-8". */
  lemma {:induction false} FallbackDecidedByFirstSettled(fallbacks: seq<string>, probe: string -> Probe, k: nat)
    requires k <= |fallbacks|
    requires forall j :: 0 <= j < k ==> probe(fallbacks[j]) == DecodeError
    ensures k == |fallbacks| ==> FallbackEncoding(fallbacks, probe) == Chosen(LastResort)
    ensures k < |fallbacks| && probe(fallbacks[k]) == Decodes ==>
              FallbackEncoding(fallbacks, probe) == Chosen(fallbacks[k])
    ensures k < |fallbacks| && probe(fallbacks[k]) == Fails ==> FallbackEncoding(fallbacks, probe) == Raised
  {
    if k > 0 {
      assert probe(fallbacks[0]) == DecodeError;
      FallbackDecidedByFirstSettled(fallbacks[1..], probe, k - 1);
    }
  }

  /** The loop of `_try_fallback_encodings`, with its early return. */
  method TryFallbackEncodings(fallbacks: seq<string>, probe: string -> Probe) returns (r: Outcome)
    ensures r == FallbackEncoding(fallbacks, probe)
  {
    var i := 0;
    while i < |fallbacks|
      invariant 0 <= i <= |fallbacks|
      invariant FallbackEncoding(fallbacks[i..], probe) == FallbackEncoding(fallbacks, probe)
    {
      var encoding := fallbacks[i];
      assert fallbacks[i..][1..] == fallbacks[i + 1..];
      match probe(encoding)
      case Decodes =>
        return Chosen(encoding);
      case DecodeError =>
        i := i + 1;
      case Fails =>
        return Raised;
    }
    return Chosen(LastResort);
  }

  predicate Confident(detection: Detection) {
    detection.Detected? && detection.confidence >= ConfidenceThreshold
  }

  /** `_detect_encoding`: the primary regional encoding when its probe decodes,
      else the detector's answer when it is confident, else the fallbacks.
      An exception raised by the fallbacks inside the detector's `try` is
      caught and the fallbacks are run again, which yields the same outcome. */
  function DetectEncoding(probe: string -> Probe, detection: Detection, fallbacks: seq<string>): (r: Outcome)
    ensures probe(Primary) == Decodes ==> r == Chosen(Primary)
    ensures probe(Primary) == Fails ==> r == Raised
    ensures probe(Primary) == DecodeError && Confident(detection) ==> r == Chosen(detection.encoding)
    ensures probe(Primary) == DecodeError && !Confident(detection) ==> r == FallbackEncoding(fallbacks, probe)
    ensures r.Chosen? ==>
              || r.encoding == Primary
              || (detection.Detected? && r.encoding == detection.encoding)
              || r.encoding in fallbacks
              || r.encoding == LastResort
  {
    match probe(Primary)
    case Decodes => Chosen(Primary)
    case Fails => Raised
    case DecodeError =>
      match detection
      case Detected(encoding, confidence) =>
        if confidence >= ConfidenceThreshold then Chosen(encoding) else FallbackEncoding(fallbacks, probe)
      case DetectorRaised => FallbackEncoding(fallbacks, probe)
  }

  /** The resolver never raises when every probe either decodes or ends in a
      decode error, i.e. when every configured encoding name is known and the
      file can be opened. */
  lemma NeverRaisesWhenProbesOnlyDecode(probe: string -> Probe, detection: Detection, fallbacks: seq<string>)
    requires probe(Primary) != Fails
    requires forall e :: e in fallbacks ==> probe(e) != Fails
    ensures DetectEncoding(probe, detection, fallbacks).Chosen?
  {
  }

  /** A file the primary probe cannot decode and the detector is unsure of is
      read under the first fallback that decodes. */
  lemma {:induction false} FirstDecodingFallbackWins(probe: string -> Probe, detection: Detection,
                                                      fallbacks: seq<string>, k: nat)
    requires probe(Primary) == DecodeError && !Confident(detection)
    requires k < |fallbacks| && probe(fallbacks[k]) == Decodes
    requires forall j :: 0 <= j < k ==> probe(fallbacks[j]) == DecodeError
    ensures DetectEncoding(probe, detection, fallbacks) == Chosen(fallbacks[k])
  {
    FallbackDecidedByFirstSettled(fallbacks, probe, k);
  }
}
