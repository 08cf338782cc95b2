/**
  The certificate record: the class that runs load at construction, keeps the
  tool's raw outputs, and fills each parsed view once, on the first call of its
  getter.
*/
module CertificateRecord {
  import opened Php
  import opened DistinguishedName
  import opened Validity
  import L = Loading

  /** The entries getAll adds only for a loaded certificate. */
  datatype Details = Details(
    isValid: bool,
    subject: Option<DnArray>,
    issuer: Option<DnArray>,
    dates: Option<map<string, string>>,
    hash: Option<string>,
    fingerprint: Option<string>)

  /** The array getAll returns: loaded, fileName and tmpFileName always, the rest only when loaded. */
  datatype Snapshot = Snapshot(
    loaded: bool,
    fileName: string,
    tmpFileName: Option<string>,
    details: Option<Details>)

  /** getHash and getFingerprint: trim of the raw output, null for null. */
  function Trimmed(raw: Option<string>): (r: Option<string>)
  {
    if raw.None? then None else Some(Trim(raw.value))
  }

  class Certificate {
    const fileName: string
    const tmpFileName: Option<string>
    const loaded: bool
    const format: Option<L.Format>

    const subject: Option<string>
    const issuer: Option<string>
    const dates: Option<string>
    const hash: Option<string>
    const fingerprint: Option<string>

    var subjectConverted: Option<DnArray>
    var issuerConverted: Option<DnArray>
    var datesConverted: Option<map<string, string>>
    var hashConverted: Option<string>
    var fingerprintConverted: Option<string>

    /** Every cache, once filled, holds the view of the raw field it is computed from. */
    ghost predicate Valid()
      reads this
    {
      && (subjectConverted.Some? ==> subjectConverted == Organization(subject))
      && (issuerConverted.Some? ==> issuerConverted == Organization(issuer))
      && (datesConverted.Some? ==> datesConverted == Dates(dates))
      && (hashConverted.Some? ==> hashConverted == Trimmed(hash))
      && (fingerprintConverted.Some? ==> fingerprintConverted == Trimmed(fingerprint))
    }

    /** The fields load works on. */
    function Raw(): (s: L.RawState)
    {
      L.RawState(fileName, tmpFileName, loaded, format, subject, issuer, dates, hash, fingerprint)
    }

    /** new Certificate($fileName): record the file and run load, with every cache empty. */
    constructor (fileName: string, tool: L.Tool, tempName: string)
      ensures Valid()
      ensures Raw() == L.LoadSpec(L.Initial(fileName), tool, tempName).0
      ensures subjectConverted.None? && issuerConverted.None? && datesConverted.None?
      ensures hashConverted.None? && fingerprintConverted.None?
    {
      var raw, ok := L.Load(L.Initial(fileName), tool, tempName);
      this.fileName := raw.fileName;
      tmpFileName, loaded, format := raw.tmpFileName, raw.loaded, raw.format;
      subject, issuer, dates, hash, fingerprint := raw.subject, raw.issuer, raw.dates, raw.hash, raw.fingerprint;
      subjectConverted, issuerConverted, datesConverted := None, None, None;
      hashConverted, fingerprintConverted := None, None;
    }

    /** getSubject: the parsed subject, computed on the first call that can compute it and kept. */
    method GetSubject() returns (r: Option<DnArray>)
      requires Valid()
      modifies this`subjectConverted
      ensures Valid()
      ensures r == Organization(subject)
      ensures subjectConverted == Organization(subject)
      ensures old(subjectConverted).Some? ==> subjectConverted == old(subjectConverted)
    {
      if subjectConverted.None? {
        subjectConverted := OrganizationToArray(subject);
      }
      r := subjectConverted;
    }

    /** getIssuer: the parsed issuer, computed on the first call that can compute it and kept. */
    method GetIssuer() returns (r: Option<DnArray>)
      requires Valid()
      modifies this`issuerConverted
      ensures Valid()
      ensures r == Organization(issuer)
      ensures issuerConverted == Organization(issuer)
      ensures old(issuerConverted).Some? ==> issuerConverted == old(issuerConverted)
    {
      if issuerConverted.None? {
        issuerConverted := OrganizationToArray(issuer);
      }
      r := issuerConverted;
    }

    /** getDates: the parsed dates, computed when the raw output is there and kept. */
    method GetDates() returns (r: Option<map<string, string>>)
      requires Valid()
      modifies this`datesConverted
      ensures Valid()
      ensures r == Dates(dates)
      ensures datesConverted == Dates(dates)
      ensures old(datesConverted).Some? ==> datesConverted == old(datesConverted)
    {
      if datesConverted.None? {
        if dates.Some? {
          datesConverted := ParseDates(dates);
        }
      }
      r := datesConverted;
    }

    /** getHash: the trimmed hash output, computed when it is there and kept. */
    method GetHash() returns (r: Option<string>)
      requires Valid()
      modifies this`hashConverted
      ensures Valid()
      ensures r == Trimmed(hash)
      ensures hashConverted == Trimmed(hash)
      ensures old(hashConverted).Some? ==> hashConverted == old(hashConverted)
    {
      if hashConverted.None? {
        if hash.Some? {
          hashConverted := Some(Trim(hash.value));
        }
      }
      r := hashConverted;
    }

    /** getFingerprint: the trimmed fingerprint output, computed when it is there and kept. */
    method GetFingerprint() returns (r: Option<string>)
      requires Valid()
      modifies this`fingerprintConverted
      ensures Valid()
      ensures r == Trimmed(fingerprint)
      ensures fingerprintConverted == Trimmed(fingerprint)
      ensures old(fingerprintConverted).Some? ==> fingerprintConverted == old(fingerprintConverted)
    {
      if fingerprintConverted.None? {
        if fingerprint.Some? {
          fingerprintConverted := Some(Trim(fingerprint.value));
        }
      }
      r := fingerprintConverted;
    }

    /** isValid at time now, with parseTime standing for strtotime. */
    method IsValid(now: int, parseTime: string -> int) returns (valid: bool)
      requires Valid()
      modifies this`datesConverted
      ensures Valid()
      ensures valid == WindowValid(Dates(dates), now, parseTime)
      ensures datesConverted == Dates(dates)
      ensures old(datesConverted).Some? ==> datesConverted == old(datesConverted)
    {
      var d := GetDates();
      valid := IsValidWindow(d, now, parseTime);
    }

    /** What getAll reports under isValid and the five getters, computed from the raw outputs. */
    function Views(now: int, parseTime: string -> int): (d: Details)
    {
      Details(WindowValid(Dates(dates), now, parseTime),
        Organization(subject), Organization(issuer), Dates(dates), Trimmed(hash), Trimmed(fingerprint))
    }

    /**
      getAll: the snapshot holds loaded, fileName and tmpFileName, and, only
      when loaded, the validity and the five views, equal to what the getters
      return; an unloaded certificate is left untouched.
    */
    method GetAll(now: int, parseTime: string -> int) returns (all: Snapshot)
      requires Valid()
      modifies this`subjectConverted, this`issuerConverted, this`datesConverted
      modifies this`hashConverted, this`fingerprintConverted
      ensures Valid()
      ensures all == Snapshot(loaded, fileName, tmpFileName, if loaded then Some(Views(now, parseTime)) else None)
      ensures !loaded ==> unchanged(this)
      ensures loaded ==>
        && subjectConverted == Organization(subject) && issuerConverted == Organization(issuer)
        && datesConverted == Dates(dates) && hashConverted == Trimmed(hash)
        && fingerprintConverted == Trimmed(fingerprint)
      ensures old(subjectConverted).Some? ==> subjectConverted == old(subjectConverted)
      ensures old(issuerConverted).Some? ==> issuerConverted == old(issuerConverted)
      ensures old(datesConverted).Some? ==> datesConverted == old(datesConverted)
      ensures old(hashConverted).Some? ==> hashConverted == old(hashConverted)
      ensures old(fingerprintConverted).Some? ==> fingerprintConverted == old(fingerprintConverted)
    {
      if !loaded {
        return Snapshot(loaded, fileName, tmpFileName, None);
      }
      var valid := IsValid(now, parseTime);
      var s := GetSubject();
      var i := GetIssuer();
      var d := GetDates();
      var h := GetHash();
      var fp := GetFingerprint();
      all := Snapshot(loaded, fileName, tmpFileName, Some(Details(valid, s, i, d, h, fp)));
    }
  }
}
