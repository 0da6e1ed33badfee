/**
 * The configuration record: a named section of an INI file, read through
 * typed accessors, plus the pass-through options for the storage client.
 * The parsed files are given as a map from section name to section.
 */
module Configuration {
  import opened Wrappers

  /** A section: option name to raw string value. */
  type Section = map<string, string>

  datatype ConfigError =
    | NoSection(section: string)   // KeyError on the section lookup
    | NoOption(option: string)     // KeyError on a required option
    | NotABoolean(value: string)   // ValueError from the boolean conversion

  /** The options that have a named accessor; all others are pass-through options. */
  const Reserved: set<string> := {"access_key", "secret_key", "bucket_name", "path", "final_dir", "delete"}

  /** The spellings the boolean conversion accepts, after lowercasing. */
  const BooleanStates: map<string, bool> := map[
    "1" := true, "yes" := true, "true" := true, "on" := true,
    "0" := false, "no" := false, "false" := false, "off" := false]

  function LowerChar(c: char): char {
    if 'A' <= c <= 'Z' then (c as int + 32) as char else c
  }

  /**
   * ASCII lowercasing. Every spelling in BooleanStates is ASCII and no
   * non-ASCII character lowercases to one of their letters or digits, so
   * membership in the table is the same as under full lowercasing.
   */
  function Lower(s: string): (r: string)
    ensures |r| == |s|
  {
    seq(|s|, i requires 0 <= i < |s| => LowerChar(s[i]))
  }

  /** The boolean conversion: `None` for a spelling it does not accept. */
  function ParseBoolean(value: string): (r: Option<bool>)
    ensures r.Some? <==> Lower(value) in BooleanStates
  {
    var key := Lower(value);
    if key in BooleanStates then Some(BooleanStates[key]) else None
  }

  /** The conversion ignores case: any spelling and its lowercase read the same. */
  lemma ParseBooleanIgnoresCase(value: string)
    ensures ParseBoolean(Lower(value)) == ParseBoolean(value)
  {
    assert Lower(Lower(value)) == Lower(value);
  }

  /** The section entries that no named accessor reads. */
  function ExtraOptions(items: Section): (extra: map<string, string>)
    ensures forall k :: k in extra <==> k in items && k !in Reserved
    ensures forall k :: k in extra ==> extra[k] == items[k]
  {
    map k | k in items && k !in Reserved :: items[k]
  }

  datatype Config = Config(sections: map<string, Section>, section: string) {

    /** The configured section, or the error its lookup raises. */
    function Items(): (r: Result<Section, ConfigError>)
      ensures r.Success? <==> section in sections
      ensures r.Success? ==> r.value == sections[section]
      ensures r.Failure? ==> r.error == NoSection(section)
    {
      if section in sections then Success(sections[section]) else Failure(NoSection(section))
    }

    /** A required option: its value, or the KeyError for the section or for the option. */
    function Required(option: string): (r: Result<string, ConfigError>)
      ensures r.Success? <==> section in sections && option in sections[section]
      ensures r.Success? ==> r.value == sections[section][option]
      ensures r.Failure? ==> r.error == if section in sections then NoOption(option) else NoSection(section)
    {
      var items :- Items();
      if option in items then Success(items[option]) else Failure(NoOption(option))
    }

    function AccessKey(): (r: Result<string, ConfigError>)
      ensures r.Success? <==> section in sections && "access_key" in sections[section]
      ensures r.Success? ==> r.value == sections[section]["access_key"]
    {
      Required("access_key")
    }

    function SecretKey(): (r: Result<string, ConfigError>)
      ensures r.Success? <==> section in sections && "secret_key" in sections[section]
      ensures r.Success? ==> r.value == sections[section]["secret_key"]
    {
      Required("secret_key")
    }

    function BucketName(): (r: Result<string, ConfigError>)
      ensures r.Success? <==> section in sections && "bucket_name" in sections[section]
      ensures r.Success? ==> r.value == sections[section]["bucket_name"]
    {
      Required("bucket_name")
    }

    function FinalDir(): (r: Result<string, ConfigError>)
      ensures r.Success? <==> section in sections && "final_dir" in sections[section]
      ensures r.Success? ==> r.value == sections[section]["final_dir"]
    {
      Required("final_dir")
    }

    /** The remote prefix: the section's value, or "" (every key) when the option is absent. */
    function Path(): (r: Result<string, ConfigError>)
      ensures r.Success? <==> section in sections
      ensures r.Success? && "path" in sections[section] ==> r.value == sections[section]["path"]
      ensures r.Success? && "path" !in sections[section] ==> r.value == ""
    {
      var items :- Items();
      Success(if "path" in items then items["path"] else "")
    }

    /**
     * The delete flag: `None` when the option is absent, the converted value
     * when it is an accepted spelling, and NotABoolean otherwise.
     */
    function Delete(): (r: Result<Option<bool>, ConfigError>)
      ensures section !in sections ==> r == Failure(NoSection(section))
      ensures section in sections && "delete" !in sections[section] ==> r == Success(None)
      ensures section in sections && "delete" in sections[section] ==>
        var value := sections[section]["delete"];
        (r.Success? <==> ParseBoolean(value).Some?)
        && (r.Success? ==> r.value == ParseBoolean(value))
        && (r.Failure? ==> r.error == NotABoolean(value))
    {
      var items :- Items();
      if "delete" !in items then Success(None)
      else match ParseBoolean(items["delete"])
        case Some(flag) => Success(Some(flag))
        case None => Failure(NotABoolean(items["delete"]))
    }

    /**
     * `kwargs`: walks the section's entries and copies every one whose name is
     * not reserved. The entries are visited in an unspecified order; the
     * result does not depend on it.
     */
    method Kwargs() returns (r: Result<map<string, string>, ConfigError>)
      ensures r.Failure? <==> section !in sections
      ensures r.Failure? ==> r.error == NoSection(section)
      ensures r.Success? ==> r.value == ExtraOptions(sections[section])
    {
      if section !in sections {
        return Failure(NoSection(section));
      }
      var items := sections[section];
      var kwargs: map<string, string> := map[];
      var remaining := items.Keys;
      while remaining != {}
        invariant remaining <= items.Keys
        invariant forall k :: k in kwargs <==> k in items && k !in remaining && k !in Reserved
        invariant forall k :: k in kwargs ==> kwargs[k] == items[k]
        decreases remaining
      {
        var key :| key in remaining;
        if key !in Reserved {
          kwargs := kwargs[key := items[key]];
        }
        remaining := remaining - {key};
      }
      return Success(kwargs);
    }

    /**
     * Every entry of the section goes to exactly one place: a reserved option
     * is read by its named accessor and never passed through; any other
     * option is passed through with its value.
     */
    lemma SectionPartition()
      requires section in sections
      ensures var items := sections[section];
        forall k :: k in items ==> (k in Reserved <==> k !in ExtraOptions(items))
      ensures var items := sections[section];
        && ("access_key" in items ==> AccessKey() == Success(items["access_key"]))
        && ("secret_key" in items ==> SecretKey() == Success(items["secret_key"]))
        && ("bucket_name" in items ==> BucketName() == Success(items["bucket_name"]))
        && ("final_dir" in items ==> FinalDir() == Success(items["final_dir"]))
        && ("path" in items ==> Path() == Success(items["path"]))
        && ("delete" in items && ParseBoolean(items["delete"]).Some? ==> Delete() == Success(ParseBoolean(items["delete"])))
    {
    }
  }
}
