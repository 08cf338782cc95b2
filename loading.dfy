/**
  The format-detection chain of the certificate class (load): ask the
  certificate tool for the subject as PEM, then as DER, and, on the original
  file only, unwrap a PKCS#7 bundle into a temporary PEM file and start again
  once on that file. The tool is an oracle from a file name and a command to
  the command's output (None for the tool's null output).
*/
module Loading {
  import opened Php

  datatype Format = PEM | DER

  /** The five fields the class asks the tool for. */
  datatype Query = Subject | Issuer | Dates | Hash | Fingerprint

  /** `openssl x509 [-inform DER] -noout -in f -<query>` and `openssl pkcs7 -inform DER -outform PEM -in f -print_certs`. */
  datatype Command = X509(format: Format, query: Query) | Pkcs7ToPem

  type Tool = (string, Command) -> Option<string>

  /** The message the tool prints when x509 cannot read the file. */
  const CertFailure: string := "unable to load certificate"

  /** The message the tool prints when pkcs7 cannot read the file. */
  const Pkcs7Failure: string := "unable to load PKCS7 object"

  /** The fields load reads and writes: $fileName, $tmpFileName, $loaded, $type and the five raw outputs. */
  datatype RawState = RawState(
    fileName: string,
    tmpFileName: Option<string>,
    loaded: bool,
    format: Option<Format>,
    subject: Option<string>,
    issuer: Option<string>,
    dates: Option<string>,
    hash: Option<string>,
    fingerprint: Option<string>)

  /** The state the constructor starts load from. */
  function Initial(fileName: string): (s: RawState)
  {
    RawState(fileName, None, false, None, None, None, None, None, None)
  }

  /** The file load works on: the temporary file once there is one, the original otherwise. */
  function CurrentFile(s: RawState): (file: string)
  {
    if s.tmpFileName.Some? then s.tmpFileName.value else s.fileName
  }

  /** The x509 subject query on file is read as format: its output does not contain the failure message. */
  predicate Reads(tool: Tool, file: string, format: Format)
  {
    !Contains(tool(file, X509(format, Subject)), CertFailure)
  }

  /** The pkcs7 unwrap of file succeeds: its output does not contain the pkcs7 failure message. */
  predicate Unwraps(tool: Tool, file: string)
  {
    !Contains(tool(file, Pkcs7ToPem), Pkcs7Failure)
  }

  /** PEM first; DER only when PEM fails; None when both fail. */
  function Detect(tool: Tool, file: string): (format: Option<Format>)
  {
    if Reads(tool, file, PEM) then Some(PEM)
    else if Reads(tool, file, DER) then Some(DER)
    else None
  }

  /** The four further queries, run on file with the format now in $type, and $loaded set. */
  function Extract(s: RawState, tool: Tool, file: string): (t: RawState)
    requires s.format.Some?
  {
    var f := s.format.value;
    s.(issuer := tool(file, X509(f, Issuer)),
       dates := tool(file, X509(f, Dates)),
       hash := tool(file, X509(f, Hash)),
       fingerprint := tool(file, X509(f, Fingerprint)),
       loaded := true)
  }

  /**
    The state and the result load leaves, step by step as the method takes
    them: a detected format is stored with the subject output; otherwise, while
    there is no temporary file and the unwrap succeeds, the temporary file is
    recorded and load runs again; then, when $type holds a format, the other
    four fields are queried and the certificate is loaded.
  */
  function LoadSpec(s: RawState, tool: Tool, tempName: string): (result: (RawState, bool))
    decreases if s.tmpFileName.None? then 1 else 0
  {
    var file := CurrentFile(s);
    var detected := Detect(tool, file);
    if detected.Some? then
      (Extract(s.(format := detected, subject := tool(file, X509(detected.value, Subject))), tool, file), true)
    else if s.tmpFileName.None? && Unwraps(tool, file) then
      LoadSpec(s.(tmpFileName := Some(tempName)), tool, tempName)
    else if s.format.Some? then
      (Extract(s, tool, file), true)
    else
      (s, false)
  }

  /**
    From the constructor's state: load succeeds exactly when the original
    file reads as PEM or DER, or it does not and the unwrap succeeds and the
    temporary file reads as PEM or DER. Success, $loaded and a set $type go
    together; the format is PEM whenever the file read reads as PEM and DER
    only when PEM failed; the temporary file is set exactly when the original
    was unreadable and unwrapped; and every query of a loaded certificate ran
    on the file that was read, which is the temporary file after an unwrap.
  */
  lemma LoadFromStart(fileName: string, tool: Tool, tempName: string)
    ensures var (s, ok) := LoadSpec(Initial(fileName), tool, tempName);
      && s.fileName == fileName
      && (ok <==> s.loaded)
      && (ok <==> s.format.Some?)
      && (s.tmpFileName.Some? <==> Detect(tool, fileName).None? && Unwraps(tool, fileName))
      && (s.tmpFileName.Some? ==> s.tmpFileName == Some(tempName))
      && (ok <==> Detect(tool, fileName).Some? || (Unwraps(tool, fileName) && Detect(tool, tempName).Some?))
      && s.format == Detect(tool, CurrentFile(s))
      && (!ok ==> s == Initial(fileName).(tmpFileName := s.tmpFileName))
      && (ok ==>
        var f, file := s.format.value, CurrentFile(s);
        && s.subject == tool(file, X509(f, Subject))
        && s.issuer == tool(file, X509(f, Issuer))
        && s.dates == tool(file, X509(f, Dates))
        && s.hash == tool(file, X509(f, Hash))
        && s.fingerprint == tool(file, X509(f, Fingerprint)))
  {
    var s0 := Initial(fileName);
    if Detect(tool, fileName).None? && Unwraps(tool, fileName) {
      var s1 := s0.(tmpFileName := Some(tempName));
      assert LoadSpec(s0, tool, tempName) == LoadSpec(s1, tool, tempName);
      assert CurrentFile(s1) == tempName;
    }
  }

  /**
    There is never a second unwrap: once a temporary file exists, load's
    outcome does not depend on what the pkcs7 command would print, nor on the
    name a new temporary file would get, and the temporary file stays as it is.
  */
  lemma NoSecondUnwrap(s: RawState, tool1: Tool, tool2: Tool, name1: string, name2: string)
    requires s.tmpFileName.Some?
    requires forall f, c :: c != Pkcs7ToPem ==> tool1(f, c) == tool2(f, c)
    ensures LoadSpec(s, tool1, name1) == LoadSpec(s, tool2, name2)
    ensures LoadSpec(s, tool1, name1).0.tmpFileName == s.tmpFileName
  {
    var file := CurrentFile(s);
    assert tool1(file, X509(PEM, Subject)) == tool2(file, X509(PEM, Subject));
    assert tool1(file, X509(DER, Subject)) == tool2(file, X509(DER, Subject));
    if s.format.Some? || Detect(tool1, file).Some? {
      var f := if Detect(tool1, file).Some? then Detect(tool1, file).value else s.format.value;
      assert tool1(file, X509(f, Subject)) == tool2(file, X509(f, Subject));
      assert tool1(file, X509(f, Issuer)) == tool2(file, X509(f, Issuer));
      assert tool1(file, X509(f, Dates)) == tool2(file, X509(f, Dates));
      assert tool1(file, X509(f, Hash)) == tool2(file, X509(f, Hash));
      assert tool1(file, X509(f, Fingerprint)) == tool2(file, X509(f, Fingerprint));
    }
  }

  /**
    load, run on the fields as a record: the same calls in the same order,
    each field written where the method writes it.
  */
  method Load(s0: RawState, tool: Tool, tempName: string) returns (s: RawState, ok: bool)
    ensures (s, ok) == LoadSpec(s0, tool, tempName)
    decreases if s0.tmpFileName.None? then 1 else 0
  {
    s := s0;
    var file := if s.tmpFileName.Some? then s.tmpFileName.value else s.fileName;
    var data := tool(file, X509(PEM, Subject));
    if !Contains(data, CertFailure) {
      s := s.(format := Some(PEM), subject := data);
    } else {
      data := tool(file, X509(DER, Subject));
      if !Contains(data, CertFailure) {
        s := s.(format := Some(DER), subject := data);
      } else if s.tmpFileName.None? {
        data := tool(file, Pkcs7ToPem);
        if !Contains(data, Pkcs7Failure) {
          s := s.(tmpFileName := Some(tempName));
          s, ok := Load(s, tool, tempName);
          return;
        }
      }
    }
    if s.format.None? {
      return s, false;
    }
    var f := s.format.value;
    s := s.(issuer := tool(file, X509(f, Issuer)));
    s := s.(dates := tool(file, X509(f, Dates)));
    s := s.(hash := tool(file, X509(f, Hash)));
    s := s.(fingerprint := tool(file, X509(f, Fingerprint)));
    s := s.(loaded := true);
    return s, true;
  }
}
