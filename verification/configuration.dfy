/** The configuration store (pc/src/config/Config.java): a map from key
    names to string values, built from the optional config.ini contents and
    the default of every known key, read through string and boolean
    getters and written through a guarded setter.

    The catalogue of keys is an enumeration that is not part of this model:
    it is a parameter, a sequence of entries with distinct names. Reading
    the file is I/O: its contents are a parameter, `None` when it could not
    be read. */
module Configuration {
  import opened Common

  /** A default value: its string form, and whether it is itself a String
      (Java's `equals` against a String holds only then). */
  datatype DefaultValue = DefaultValue(text: string, isString: bool)

  /** A catalogue entry: `constant` entries are read once at start-up and
      are the only ones config.ini may change; `overridden` entries are
      forced to their default even when config.ini sets them. */
  datatype Info = Info(name: string, default: DefaultValue, constant: bool, overridden: bool)

  ghost predicate DistinctNames(infos: seq<Info>)
  {
    forall i, j :: 0 <= i < j < |infos| ==> infos[i].name != infos[j].name
  }

  function Names(infos: seq<Info>): (ns: set<string>)
    ensures forall i :: 0 <= i < |infos| ==> infos[i].name in ns
    ensures forall n :: n in ns ==> exists i :: 0 <= i < |infos| && infos[i].name == n
  {
    set i | 0 <= i < |infos| :: infos[i].name
  }

  datatype Config = Config(
    properties: map<string, string>, uptodate: set<string>,
    graphicEnable: bool, surcharged: bool, configIniCharge: bool)

  // ---------------------------------------------------------------------
  // completeConfig
  // ---------------------------------------------------------------------

  /** The value completeConfig leaves for an entry when config.ini was read:
      the file's value only for a constant, not overridden entry the file
      sets; the default otherwise. */
  function EntryValue(info: Info, ini: map<string, string>): string
  {
    if info.name in ini && info.constant && !info.overridden then ini[info.name] else info.default.text
  }

  /** Java's `getDefaultValue().equals(value)`: the default object against a
      String, equal only when the default is a String with that text. */
  predicate DefaultEqualsAsWritten(d: DefaultValue, value: string)
  {
    d.isString && d.text == value
  }

  /** The comparison of the default's string form, as the change report of
      the same class makes it. */
  predicate DefaultEquals(d: DefaultValue, value: string)
  {
    d.text == value
  }

  /** Whether an entry counts as a change made by config.ini, with a given
      comparison of the default. */
  predicate Surcharges(info: Info, ini: map<string, string>, asWritten: bool)
  {
    info.name in ini && info.constant
    && (info.overridden
        || !(if asWritten then DefaultEqualsAsWritten(info.default, ini[info.name])
             else DefaultEquals(info.default, ini[info.name])))
  }

  /** One round of the first loop of completeConfig: the entry's value is
      settled and the flag raised when config.ini changed it (given that
      the properties so far hold config.ini's value for this entry). */
  function FillStep(info: Info, ini: map<string, string>, props: map<string, string>,
                    surcharged: bool, asWritten: bool): (r: (map<string, string>, bool))
    ensures r.0.Keys == props.Keys + {info.name}
    ensures forall k :: k in props && k != info.name ==> r.0[k] == props[k]
    ensures (info.name in props <==> info.name in ini)
            && (info.name in props ==> props[info.name] == ini[info.name]) ==>
      && r.0[info.name] == EntryValue(info, ini)
      && (r.1 <==> surcharged || Surcharges(info, ini, asWritten))
  {
    var name := info.name;
    if name !in props then (props[name := info.default.text], surcharged)
    else if !info.constant then (props[name := info.default.text], surcharged)
    else if info.overridden then (props[name := info.default.text], true)
    else if !(if asWritten then DefaultEqualsAsWritten(info.default, props[name])
              else DefaultEquals(info.default, props[name])) then (props, true)
    else (props, surcharged)
  }

  lemma NamesFrom(infos: seq<Info>, i: nat)
    requires i < |infos|
    ensures Names(infos[i..]) == {infos[i].name} + Names(infos[i + 1..])
  {
    assert infos[i..][1..] == infos[i + 1..];
  }

  /** The first loop of completeConfig from entry `i` on, `props` being the
      properties so far and `surcharged` the flag so far. */
  function Fill(infos: seq<Info>, ini: map<string, string>, i: nat,
                props: map<string, string>, surcharged: bool, asWritten: bool): (r: (map<string, string>, bool))
    requires i <= |infos|
    ensures r.0.Keys == props.Keys + Names(infos[i..])
    ensures forall k :: k in props && k !in Names(infos[i..]) ==> r.0[k] == props[k]
    decreases |infos| - i
  {
    if i == |infos| then (props, surcharged)
    else
      var step := FillStep(infos[i], ini, props, surcharged, asWritten);
      NamesFrom(infos, i);
      Fill(infos, ini, i + 1, step.0, step.1, asWritten)
  }

  /** Whether the properties so far hold config.ini's values for the
      entries from `i` on. */
  ghost predicate AgreesFrom(infos: seq<Info>, ini: map<string, string>, i: nat, props: map<string, string>)
  {
    forall j :: i <= j < |infos| ==>
      (infos[j].name in props <==> infos[j].name in ini)
      && (infos[j].name in props ==> props[infos[j].name] == ini[infos[j].name])
  }

  /** One round keeps that agreement for the entries after it. */
  lemma AgreesAfterStep(infos: seq<Info>, ini: map<string, string>, i: nat,
                        props: map<string, string>, surcharged: bool, asWritten: bool)
    requires i < |infos| && DistinctNames(infos) && AgreesFrom(infos, ini, i, props)
    ensures AgreesFrom(infos, ini, i + 1, FillStep(infos[i], ini, props, surcharged, asWritten).0)
    ensures infos[i].name !in Names(infos[i + 1..])
  {
    forall j | i + 1 <= j < |infos|
      ensures infos[j].name != infos[i].name
    {
    }
  }

  /** When the properties so far hold config.ini's values for the entries
      still to visit, the loop leaves each entry its EntryValue. */
  lemma {:induction false} FillValues(infos: seq<Info>, ini: map<string, string>, i: nat,
                                      props: map<string, string>, surcharged: bool, asWritten: bool)
    requires i <= |infos| && DistinctNames(infos) && AgreesFrom(infos, ini, i, props)
    ensures forall j :: i <= j < |infos| ==>
      Fill(infos, ini, i, props, surcharged, asWritten).0[infos[j].name] == EntryValue(infos[j], ini)
    decreases |infos| - i
  {
    if i < |infos| {
      var step := FillStep(infos[i], ini, props, surcharged, asWritten);
      AgreesAfterStep(infos, ini, i, props, surcharged, asWritten);
      FillValues(infos, ini, i + 1, step.0, step.1, asWritten);
      var r := Fill(infos, ini, i + 1, step.0, step.1, asWritten);
      assert Fill(infos, ini, i, props, surcharged, asWritten) == r;
      forall j | i <= j < |infos|
        ensures r.0[infos[j].name] == EntryValue(infos[j], ini)
      {
        if j == i {
          assert r.0[infos[i].name] == step.0[infos[i].name];
        }
      }
    }
  }

  /** Under the same agreement, the loop raises the flag exactly when one
      of the entries is a change. */
  lemma {:induction false} FillFlag(infos: seq<Info>, ini: map<string, string>, i: nat,
                                    props: map<string, string>, surcharged: bool, asWritten: bool)
    requires i <= |infos| && DistinctNames(infos) && AgreesFrom(infos, ini, i, props)
    ensures Fill(infos, ini, i, props, surcharged, asWritten).1
      <==> surcharged || exists j :: i <= j < |infos| && Surcharges(infos[j], ini, asWritten)
    decreases |infos| - i
  {
    if i < |infos| {
      var step := FillStep(infos[i], ini, props, surcharged, asWritten);
      AgreesAfterStep(infos, ini, i, props, surcharged, asWritten);
      FillFlag(infos, ini, i + 1, step.0, step.1, asWritten);
      assert Fill(infos, ini, i, props, surcharged, asWritten) == Fill(infos, ini, i + 1, step.0, step.1, asWritten);
    }
  }

  predicate ContainsHash(k: string)
  {
    exists i :: 0 <= i < |k| && k[i] == '#'
  }

  /** The second loop of completeConfig: keys containing '#' are removed;
      unknown keys are only reported. */
  function RemoveHashKeys(props: map<string, string>): (r: map<string, string>)
    ensures r.Keys == set k | k in props && !ContainsHash(k)
    ensures forall k :: k in r ==> r[k] == props[k]
  {
    map k | k in props && !ContainsHash(k) :: props[k]
  }

  /** completeConfig: the properties and the `surcharged` flag, from the
      file's contents (`None` when it was not read). */
  function CompleteConfig(infos: seq<Info>, ini: Option<map<string, string>>, asWritten: bool)
    : (r: (map<string, string>, bool))
    requires DistinctNames(infos)
    ensures ini.None? ==> r.0.Keys == Names(infos) && !r.1
    ensures ini.None? ==> forall j :: 0 <= j < |infos| ==> r.0[infos[j].name] == infos[j].default.text
    ensures ini.Some? ==> r.0.Keys == set k | k in ini.value.Keys + Names(infos) && !ContainsHash(k)
    ensures ini.Some? ==> forall j :: 0 <= j < |infos| && !ContainsHash(infos[j].name) ==>
      r.0[infos[j].name] == EntryValue(infos[j], ini.value)
    ensures ini.Some? ==> forall k :: k in r.0 && k !in Names(infos) ==> r.0[k] == ini.value[k]
    ensures ini.Some? ==> (r.1 <==> exists j :: 0 <= j < |infos| && Surcharges(infos[j], ini.value, asWritten))
  {
    assert infos[0..] == infos;
    match ini
    case None =>
      FillValues(infos, map[], 0, map[], false, asWritten);
      FillFlag(infos, map[], 0, map[], false, asWritten);
      Fill(infos, map[], 0, map[], false, asWritten)
    case Some(m) =>
      FillValues(infos, m, 0, m, false, asWritten);
      FillFlag(infos, m, 0, m, false, asWritten);
      var filled := Fill(infos, m, 0, m, false, asWritten);
      (RemoveHashKeys(filled.0), filled.1)
  }

  /** Without config.ini, every known key holds its default and nothing is
      reported as changed; the file's absence and an empty file differ only
      in the `surcharged` flag, which an empty file cannot raise either. */
  lemma NoFileMeansDefaults(infos: seq<Info>)
    requires DistinctNames(infos)
    requires forall j :: 0 <= j < |infos| ==> !ContainsHash(infos[j].name)
    ensures CompleteConfig(infos, None, false) == CompleteConfig(infos, Some(map[]), false)
  {
    var f := Fill(infos, map[], 0, map[], false, false);
    assert infos[0..] == infos;
    forall k | k in f.0
      ensures !ContainsHash(k)
    {
      var j :| 0 <= j < |infos| && infos[j].name == k;
    }
    assert RemoveHashKeys(f.0) == f.0;
  }

  /** As written, a constant entry whose default is not a String (a number,
      a boolean) counts as changed even when config.ini repeats its default. */
  lemma NumericDefaultReportedChanged()
    ensures var info := Info("NB_ESSAIS", DefaultValue("3", false), true, false);
      var ini := map["NB_ESSAIS" := "3"];
      CompleteConfig([info], Some(ini), true).1
      && !CompleteConfig([info], Some(ini), false).1
      && CompleteConfig([info], Some(ini), true).0 == CompleteConfig([info], Some(ini), false).0
  {
    var info := Info("NB_ESSAIS", DefaultValue("3", false), true, false);
    var ini := map["NB_ESSAIS" := "3"];
    assert !Surcharges(info, ini, false);
    assert Surcharges(info, ini, true);
  }

  // ---------------------------------------------------------------------
  // Getters and setters
  // ---------------------------------------------------------------------

  /** getString: the stored property of an up-to-date entry, nothing for
      one that is not. */
  function GetString(c: Config, name: string): (r: Option<string>)
    ensures name !in c.uptodate ==> r.None?
    ensures name in c.uptodate && name in c.properties ==> r == Some(c.properties[name])
    ensures r.None? <==> name !in c.uptodate || name !in c.properties
  {
    if name in c.uptodate && name in c.properties then Some(c.properties[name]) else None
  }

  function ToLower(ch: char): char
  {
    if 'A' <= ch <= 'Z' then (ch as int + 32) as char else ch
  }

  /** Boolean.parseBoolean: true exactly for "true" in any case; false for
      anything else, null included. */
  function ParseBoolean(s: Option<string>): (b: bool)
    ensures b ==> s.Some? && |s.value| == 4
    ensures s == Some("true") || s == Some("TRUE") ==> b
    ensures s == Some("false") || s == None ==> !b
    ensures s.Some? ==> (b <==> |s.value| == 4 && EitherCase(s.value[0], 't') && EitherCase(s.value[1], 'r')
                                 && EitherCase(s.value[2], 'u') && EitherCase(s.value[3], 'e'))
  {
    s.Some? && |s.value| == 4
    && ToLower(s.value[0]) == 't' && ToLower(s.value[1]) == 'r'
    && ToLower(s.value[2]) == 'u' && ToLower(s.value[3]) == 'e'
  }

  /** `ch` is the lower-case letter `lower` or its upper-case form. */
  predicate EitherCase(ch: char, lower: char)
    requires 'a' <= lower <= 'z'
  {
    ch == lower || ch == (lower as int - 32) as char
  }

  /** parseBoolean accepts exactly the sixteen casings of "true": a string
      reads true if and only if it has four characters, each the letter of
      "true" at its place in either case. */
  lemma ParseBooleanAnyCase(s: string)
    ensures ParseBoolean(Some(s)) <==>
      |s| == 4 && EitherCase(s[0], 't') && EitherCase(s[1], 'r') && EitherCase(s[2], 'u') && EitherCase(s[3], 'e')
  {
  }

  /** Two casings outside the literals: "True" reads true, and "trUx",
      where one letter differs, reads false. */
  lemma ParseBooleanMixedCase()
    ensures ParseBoolean(Some("True")) && ParseBoolean(Some("tRuE"))
    ensures !ParseBoolean(Some("trUx")) && !ParseBoolean(Some("truee"))
  {
  }

  predicate StartsWith(s: string, prefix: string)
  {
    |prefix| <= |s| && s[..|prefix|] == prefix
  }

  const GRAPHIC_PREFIX: string := "GRAPHIC_"

  /** getBoolean: nothing when getString gives nothing; a GRAPHIC_ entry is
      true only when graphics are enabled. */
  function GetBoolean(c: Config, name: string): (r: Option<bool>)
    ensures r.None? <==> GetString(c, name).None?
    ensures r.Some? && !StartsWith(name, GRAPHIC_PREFIX) ==> r.value == ParseBoolean(GetString(c, name))
    ensures r.Some? && StartsWith(name, GRAPHIC_PREFIX) ==>
      (r.value <==> c.graphicEnable && ParseBoolean(GetString(c, name)))
  {
    var s := GetString(c, name);
    if s.None? then None
    else if StartsWith(name, GRAPHIC_PREFIX) then Some(c.graphicEnable && ParseBoolean(s))
    else Some(ParseBoolean(s))
  }

  /** With graphics disabled, no GRAPHIC_ entry reads true. */
  lemma GraphicsDisabledGatesAll(c: Config, name: string)
    requires !c.graphicEnable && StartsWith(name, GRAPHIC_PREFIX)
    ensures GetBoolean(c, name) != Some(true)
  {
  }

  /** The private set: the entry becomes up to date with the new value. */
  function SetPrivate(c: Config, name: string, value: string): (r: Config)
    ensures GetString(r, name) == Some(value)
    ensures forall n :: n != name ==> GetString(r, n) == GetString(c, n)
    ensures r.graphicEnable == c.graphicEnable && r.surcharged == c.surcharged
  {
    c.(properties := c.properties[name := value], uptodate := c.uptodate + {name})
  }

  /** The public set: refused for a constant entry, which keeps its value;
      any other entry is written through the private set. */
  function Set(c: Config, info: Info, value: string): (r: Config)
    ensures info.constant ==> r == c
    ensures !info.constant ==> GetString(r, info.name) == Some(value)
    ensures forall n :: n != info.name ==> GetString(r, n) == GetString(c, n)
  {
    if info.constant then c else SetPrivate(c, info.name, value)
  }

  /** Setting the same value twice is setting it once, and the last of two
      writes to the same entry wins. */
  lemma SetLastWins(c: Config, info: Info, v1: string, v2: string)
    ensures Set(Set(c, info, v1), info, v2) == Set(c, info, v2)
    ensures Set(Set(c, info, v1), info, v1) == Set(c, info, v1)
  {
    if !info.constant {
      assert c.properties[info.name := v1][info.name := v2] == c.properties[info.name := v2];
      assert c.uptodate + {info.name} + {info.name} == c.uptodate + {info.name};
    }
  }

  const GRAPHIC_ENABLE: string := "GRAPHIC_ENABLE"

  /** The constructor: complete the configuration from the file's contents
      with the default comparison as written, so that a file repeating a
      non-String default sets the `surcharged` flag;
      graphics are enabled when GRAPHIC_ENABLE reads "true". The set of
      up-to-date entries at start-up belongs to the catalogue and is a
      parameter. */
  function Load(infos: seq<Info>, ini: Option<map<string, string>>, uptodate: set<string>): (c: Config)
    requires DistinctNames(infos)
    ensures c.configIniCharge <==> ini.Some?
    ensures c.graphicEnable <==> ParseBoolean(GetString(c, GRAPHIC_ENABLE))
    ensures c.uptodate == uptodate
    ensures ini.None? ==> !c.surcharged
    ensures ini.Some? ==> (c.surcharged <==> exists j :: 0 <= j < |infos| && Surcharges(infos[j], ini.value, true))
    ensures ini.Some? ==> forall j :: 0 <= j < |infos| && !ContainsHash(infos[j].name) ==>
      infos[j].name in c.properties && c.properties[infos[j].name] == EntryValue(infos[j], ini.value)
  {
    var (props, surcharged) := CompleteConfig(infos, ini, true);
    var c := Config(props, uptodate, false, surcharged, ini.Some?);
    c.(graphicEnable := ParseBoolean(GetString(c, GRAPHIC_ENABLE)))
  }

  /** After loading, the GRAPHIC_ENABLE entry reads back through the
      boolean getter as the flag itself. */
  lemma GraphicEnableReadsBack(infos: seq<Info>, ini: Option<map<string, string>>, uptodate: set<string>)
    requires DistinctNames(infos)
    ensures var c := Load(infos, ini, uptodate);
      GetString(c, GRAPHIC_ENABLE).Some? ==> GetBoolean(c, GRAPHIC_ENABLE) == Some(c.graphicEnable)
  {
    assert StartsWith(GRAPHIC_ENABLE, GRAPHIC_PREFIX);
  }
}
