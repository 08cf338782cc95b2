/**
  The distinguished-name parser of the certificate class (organizationToArray):
  the subject or issuer line printed by the certificate tool becomes an array of
  attribute values plus, under the key "webslon", an array of the attributes
  whose OID is in a fixed table, re-keyed by their short Russian registry name.
*/
module DistinguishedName {
  import opened Php
  import opened Escapes

  /** A value in the parsed array: an attribute's text, or the nested alias array. */
  datatype DnValue = Text(text: string) | Aliases(aliases: map<string, string>)

  type DnArray = map<string, DnValue>

  /** The key under which the alias array is stored. */
  const AliasKey: string := "webslon"

  /** The fixed OID table ($webslonMap). */
  const OidAliases: map<string, string> := map[
    "1.2.643.100.1" := "OGRN",
    "1.2.643.3.131.1.1" := "INN",
    "1.2.643.100.3" := "SNILS",
    "1.2.643.100.5" := "OGRNIP",
    "1.2.643.3.141.1.1" := "RNS_FSS",
    "1.2.643.3.141.1.2" := "KP_FSS",
    "2.5.4.65" := "PSEUDONYM",
    "2.5.4.16" := "POST_ADDRESS"
  ]

  /** No two OIDs of a table share an alias. */
  ghost predicate Injective(table: map<string, string>)
  {
    forall a, b :: a in table && b in table && a != b ==> table[a] != table[b]
  }

  /** The OID an alias of the table stands for: the inverse of the table, which shows no alias is shared. */
  ghost function OidOf(alias: string): string
  {
    if alias == "OGRN" then "1.2.643.100.1"
    else if alias == "INN" then "1.2.643.3.131.1.1"
    else if alias == "SNILS" then "1.2.643.100.3"
    else if alias == "OGRNIP" then "1.2.643.100.5"
    else if alias == "RNS_FSS" then "1.2.643.3.141.1.1"
    else if alias == "KP_FSS" then "1.2.643.3.141.1.2"
    else if alias == "PSEUDONYM" then "2.5.4.65"
    else "2.5.4.16"
  }

  /** No two OIDs of the table share an alias, and the alias key is not an OID of it. */
  lemma OidAliasesInjective()
    ensures Injective(OidAliases)
    ensures AliasKey !in OidAliases
  {
    assert forall oid :: oid in OidAliases ==> OidOf(OidAliases[oid]) == oid;
  }

  /** The value stored under an alias: INN loses its leading zeros, every other alias keeps the value. */
  function AliasValue(alias: string, value: string): (v: string)
  {
    if alias == "INN" then TrimLeadingZeros(value) else value
  }

  /** The "subject" and "issuer" keys of the prefix segments the tool prints. */
  predicate IsPrefixKey(key: string)
  {
    key == "subject" || key == "issuer"
  }

  /**
    What one '/'-segment contributes to the attribute array: nothing when it has
    no '=', or when it is a prefix segment whose value is falsy; otherwise the
    text before its first '=' as key and the trimmed text after it as value.
  */
  function Entry(segment: string): (e: Option<(string, string)>)
  {
    match KeyValue(segment)
    case None => None
    case Some((key, value)) => if IsPrefixKey(key) && IsFalsy(value) then None else Some((key, value))
  }

  /** A segment without '=' contributes nothing. */
  lemma EntryWithoutEquals(segment: string)
    requires '=' !in segment
    ensures Entry(segment) == None
  {
    KeyValueAtFirstEquals(segment);
  }

  /**
    A segment "key=v" (with no '=' in key) contributes key and the trimmed v,
    unless key is "subject" or "issuer" and the trimmed v is "" or "0".
  */
  lemma EntryOf(key: string, v: string)
    requires '=' !in key
    ensures Entry(key + "=" + v) == if IsPrefixKey(key) && IsFalsy(Trim(v)) then None else Some((key, Trim(v)))
  {
    KeyValueOf(key, v);
  }

  /** The alias array the loop builds over segments ($arWebslon), for the OID table given. */
  function AliasesOf(segments: seq<string>, table: map<string, string>): (aliases: map<string, string>)
  {
    if segments == [] then map[]
    else
      var w := AliasesOf(segments[..|segments| - 1], table);
      var e := Entry(segments[|segments| - 1]);
      if e.Some? && e.value.0 in table then
        var alias := table[e.value.0];
        w[alias := AliasValue(alias, e.value.1)]
      else w
  }

  /** The segments of a distinguished name: escapes are decoded first, then the text is split on '/'. */
  function Segments(data: string): (segments: seq<string>)
  {
    Explode('/', ConvertXcodes(data))
  }

  /** The array organizationToArray returns for a non-null argument. */
  function ParseDn(data: string): (dn: DnArray)
  {
    var segments := Segments(data);
    var attrs := Assign(segments, Entry);
    (map k | k in attrs :: Text(attrs[k]))[AliasKey := Aliases(AliasesOf(segments, OidAliases))]
  }

  /** organizationToArray: null for null, the parsed array otherwise. */
  function Organization(data: Option<string>): (dn: Option<DnArray>)
  {
    if data.None? then None else Some(ParseDn(data.value))
  }

  /**
    The alias array mirrors the attribute array on the OIDs of an injective
    table: an alias is present exactly when its OID is, it holds the OID's value
    (INN without leading zeros), and no other key appears.
  */
  lemma {:induction false} AliasesFollowAttributes(segments: seq<string>, table: map<string, string>)
    requires Injective(table)
    ensures AliasesOf(segments, table).Keys <= table.Values
    ensures forall oid :: oid in table ==>
      (table[oid] in AliasesOf(segments, table) <==> oid in Assign(segments, Entry))
    ensures forall oid :: oid in table && oid in Assign(segments, Entry) ==>
      AliasesOf(segments, table)[table[oid]] == AliasValue(table[oid], Assign(segments, Entry)[oid])
    decreases |segments|
  {
    if segments != [] {
      var init := segments[..|segments| - 1];
      AliasesFollowAttributes(init, table);
      var e := Entry(segments[|segments| - 1]);
      forall oid | oid in table
        ensures table[oid] in AliasesOf(segments, table) <==> oid in Assign(segments, Entry)
        ensures oid in Assign(segments, Entry) ==>
          AliasesOf(segments, table)[table[oid]] == AliasValue(table[oid], Assign(segments, Entry)[oid])
      {
        if e.Some? && e.value.0 != oid && e.value.0 in table {
          assert table[e.value.0] != table[oid];
        }
      }
    }
  }

  /**
    Every entry of the parsed array other than "webslon" comes from a segment:
    a key is present exactly when some segment contributes it, and it holds the
    text of the last segment that does.
  */
  lemma ParseDnAttributes(data: string)
    ensures forall k :: k != AliasKey ==>
      (k in ParseDn(data) <==> exists i :: 0 <= i < |Segments(data)| && Writes(Entry(Segments(data)[i]), k))
    ensures forall i :: 0 <= i < |Segments(data)| && LastWriter(Segments(data), Entry, i) && Entry(Segments(data)[i]).value.0 != AliasKey ==>
      var e := Entry(Segments(data)[i]);
      e.value.0 in ParseDn(data) && ParseDn(data)[e.value.0] == Text(e.value.1)
  {
    var segments := Segments(data);
    forall k | k != AliasKey
      ensures k in ParseDn(data) <==> exists i :: 0 <= i < |segments| && Writes(Entry(segments[i]), k)
    {
      AssignKeys(segments, Entry, k);
    }
    forall i | 0 <= i < |segments| && LastWriter(segments, Entry, i) && Entry(segments[i]).value.0 != AliasKey
      ensures Entry(segments[i]).value.0 in ParseDn(data)
      ensures ParseDn(data)[Entry(segments[i]).value.0] == Text(Entry(segments[i]).value.1)
    {
      AssignLastWins(segments, Entry, i);
    }
  }

  /**
    "webslon" is always present and holds the alias array, whatever the
    segments say; for each OID of the table the alias is present exactly when
    the OID is, with the OID's text (INN stripped of leading zeros, while the
    OID's own entry keeps them); no key outside the table's aliases appears.
  */
  lemma ParseDnAliases(data: string)
    ensures AliasKey in ParseDn(data) && ParseDn(data)[AliasKey].Aliases?
    ensures ParseDn(data)[AliasKey].aliases.Keys <= OidAliases.Values
    ensures forall oid :: oid in OidAliases ==>
      (OidAliases[oid] in ParseDn(data)[AliasKey].aliases <==> oid in ParseDn(data))
    ensures forall oid :: oid in OidAliases && oid in ParseDn(data) ==>
      ParseDn(data)[oid].Text? &&
      ParseDn(data)[AliasKey].aliases[OidAliases[oid]] == AliasValue(OidAliases[oid], ParseDn(data)[oid].text)
  {
    OidAliasesInjective();
    AliasesFollowAttributes(Segments(data), OidAliases);
  }

  /** What the segment at index i adds to both arrays. */
  lemma SegmentStep(items: seq<string>, i: nat)
    requires i < |items|
    ensures var e := Entry(items[i]);
      && Assign(items[..i + 1], Entry) ==
        (if e.Some? then Assign(items[..i], Entry)[e.value.0 := e.value.1] else Assign(items[..i], Entry))
      && AliasesOf(items[..i + 1], OidAliases) ==
        (if e.Some? && e.value.0 in OidAliases
         then AliasesOf(items[..i], OidAliases)[OidAliases[e.value.0] := AliasValue(OidAliases[e.value.0], e.value.1)]
         else AliasesOf(items[..i], OidAliases))
  {
    assert items[..i + 1][..i] == items[..i];
    assert items[..i + 1][i] == items[i];
  }

  /**
    organizationToArray: decode the escapes, split on '/', fill both arrays,
    then store the alias array under "webslon".
  */
  method OrganizationToArray(data: Option<string>) returns (r: Option<DnArray>)
    ensures r.None? <==> data.None?
    ensures r == Organization(data)
  {
    if data.None? {
      return None;
    }
    var items := Explode('/', ConvertXcodes(data.value));
    var result, webslon := CollectSegments(items);
    r := Some((map k | k in result :: Text(result[k]))[AliasKey := Aliases(webslon)]);
  }

  /**
    organizationToArray's loop over the '/'-segments: each "key=value" segment
    that is not an empty prefix goes into the attribute array, and, when its
    key is an OID of the table, into the alias array under the alias.
  */
  method CollectSegments(items: seq<string>) returns (result: map<string, string>, webslon: map<string, string>)
    ensures result == Assign(items, Entry)
    ensures webslon == AliasesOf(items, OidAliases)
  {
    result, webslon := map[], map[];
    var i := 0;
    while i < |items|
      invariant 0 <= i <= |items|
      invariant result == Assign(items[..i], Entry)
      invariant webslon == AliasesOf(items[..i], OidAliases)
    {
      SegmentStep(items, i);
      var kv := KeyValue(items[i]);
      if kv.Some? {
        var key, value := kv.value.0, kv.value.1;
        if !(key == "subject" && IsFalsy(value)) && !(key == "issuer" && IsFalsy(value)) {
          result := result[key := value];
          if key in OidAliases {
            if OidAliases[key] == "INN" {
              value := TrimLeadingZeros(value);
            }
            webslon := webslon[OidAliases[key] := value];
          }
        }
      }
      i := i + 1;
    }
    assert items[..|items|] == items;
  }
}
