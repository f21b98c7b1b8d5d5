/** The table of encryption profiles: for each profile name, the master key,
    the secondary key, whether the first byte gets an extra XOR, and the
    four-byte tag of the encryption chunk written when packing. */
module EncryptionParameters {
  import opened Bytes

  datatype Params = Params(masterKey: nat, secondaryKey: byte, xorFirstByte: bool, tag: Bytes)

  /** 'eliF' and 'neko', the two encryption chunk tags. */
  const TagEliF: Bytes := [0x65, 0x6C, 0x69, 0x46]
  const TagNeko: Bytes := [0x6E, 0x65, 0x6B, 0x6F]

  const NonSteamMaster: nat := 0x1548E29C
  const SteamMaster: nat := 0x44528B87

  const Table: map<string, Params> := map[
    "none"            := Params(0x00000000, 0x00, false, TagEliF),
    "neko_vol1"       := Params(NonSteamMaster, 0xD7, false, TagEliF),
    "neko_vol1_steam" := Params(SteamMaster, 0x23, false, TagEliF),
    "neko_vol0"       := Params(NonSteamMaster, 0xD7, true, TagNeko),
    "neko_vol0_steam" := Params(SteamMaster, 0x23, true, TagNeko)
  ]

  /** `encryption_parameters[name]`, with the KeyError of an unknown name (or of `None`). */
  function Lookup(name: Option<string>): (r: Result<Params>)
    ensures r.Ok? <==> name.Some? && name.value in Table
    ensures r.Ok? ==> r.value == Table[name.value]
    ensures r.Err? ==> r.error == UnknownProfile
  {
    if name.Some? && name.value in Table then Ok(Table[name.value]) else Err(UnknownProfile)
  }

  /** Exactly five profiles exist. */
  lemma ProfileNames()
    ensures Table.Keys == {"none", "neko_vol1", "neko_vol1_steam", "neko_vol0", "neko_vol0_steam"}
    ensures |Table| == 5
  {
  }

  /** `none` encrypts with zero keys and no first-byte step. */
  lemma NoneProfile()
    ensures Table["none"].masterKey == 0 && Table["none"].secondaryKey == 0
    ensures !Table["none"].xorFirstByte
  {
  }

  /** vol0 profiles XOR the first byte and write 'neko'; every other profile does neither
      and writes 'eliF'. Steam profiles share one key pair, the others another. */
  lemma ProfileFamilies(name: string)
    requires name in Table
    ensures Table[name].xorFirstByte <==> name in {"neko_vol0", "neko_vol0_steam"}
    ensures Table[name].tag == (if Table[name].xorFirstByte then TagNeko else TagEliF)
    ensures name in {"neko_vol1_steam", "neko_vol0_steam"} ==>
              Table[name].masterKey == SteamMaster && Table[name].secondaryKey == 0x23
    ensures name in {"neko_vol1", "neko_vol0"} ==>
              Table[name].masterKey == NonSteamMaster && Table[name].secondaryKey == 0xD7
    ensures Table[name].tag != [0x46, 0x69, 0x6C, 0x65]  // never 'File'
  {
  }
}
