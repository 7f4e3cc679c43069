/**
 * The fixed sequence the command runs on a configuration: replace `DNSDatabaseInfo`,
 * then `DatabaseMirror`, then `PrivateMirror`, then the custom values, and serialize the
 * result.
 */
module Fixer {
  import opened Base
  import Text
  import opened Config
  import Custom
  import Serializer

  /** The command-line options that change the document; unset options are `None`. */
  datatype Options = Options(
    dnsDatabaseInfo: Option<string>,
    databaseMirror: Option<seq<string>>,
    privateMirror: Option<seq<string>>,
    customValue: Option<seq<string>>)

  /** Why no text is written: an invalid custom value, or an empty document. */
  datatype Error = CustomError(custom: Custom.Error) | SerializeError(serialize: Serializer.Error)

  const DnsDatabaseInfo: string := "DNSDatabaseInfo"
  const DatabaseMirror: string := "DatabaseMirror"
  const PrivateMirror: string := "PrivateMirror"

  /** A single-valued option as `replace_config_values` receives it. */
  function ScalarOption(o: Option<string>): Values {
    match o
    case None => Absent
    case Some(v) => Scalar(v)
  }

  /** An `append` option as `replace_config_values` receives it. */
  function ListOption(o: Option<seq<string>>): Values {
    match o
    case None => Absent
    case Some(vs) => Many(vs)
  }

  /** The three fixed replacements, in the order the command makes them. */
  function ReplaceOptions(doc: Doc, opts: Options): Doc {
    var d1 := ReplaceConfigValues(doc, DnsDatabaseInfo, ScalarOption(opts.dnsDatabaseInfo));
    var d2 := ReplaceConfigValues(d1, DatabaseMirror, ListOption(opts.databaseMirror));
    ReplaceConfigValues(d2, PrivateMirror, ListOption(opts.privateMirror))
  }

  /** Every change the command makes to the document. */
  function Fix(doc: Doc, opts: Options): Result<Doc, Custom.Error> {
    Custom.ReplaceCustomValues(ReplaceOptions(doc, opts), opts.customValue)
  }

  /** From the text read to the text written. */
  function Run(text: string, opts: Options): Result<string, Error> {
    match Fix(ReadText(text), opts)
    case Failure(e) => Failure(CustomError(e))
    case Success(doc) =>
      match Serializer.Serialize(doc)
      case Failure(e) => Failure(SerializeError(e))
      case Success(out) => Success(out)
  }

  /** The option for one of the three fixed names, or `Absent` for any other name. */
  function OptionFor(opts: Options, name: string): Values {
    if name == DnsDatabaseInfo then ScalarOption(opts.dnsDatabaseInfo)
    else if name == DatabaseMirror then ListOption(opts.databaseMirror)
    else if name == PrivateMirror then ListOption(opts.privateMirror)
    else Absent
  }

  /**
   * After the three replacements a fixed name that was given a non-empty option holds
   * exactly the option's values; every other name keeps its values.
   */
  lemma ReplaceOptionsValues(doc: Doc, opts: Options, name: string)
    ensures GetConfigValues(ReplaceOptions(doc, opts), name)
         == if IsFalsy(OptionFor(opts, name)) then GetConfigValues(doc, name)
            else ValueList(OptionFor(opts, name))
  {
    var v1, v2, v3 := ScalarOption(opts.dnsDatabaseInfo), ListOption(opts.databaseMirror), ListOption(opts.privateMirror);
    var d1 := ReplaceConfigValues(doc, DnsDatabaseInfo, v1);
    var d2 := ReplaceConfigValues(d1, DatabaseMirror, v2);
    var d3 := ReplaceConfigValues(d2, PrivateMirror, v3);
    assert GetConfigValues(d1, name) == if name == DnsDatabaseInfo && !IsFalsy(v1) then ValueList(v1) else GetConfigValues(doc, name) by {
      if name == DnsDatabaseInfo {
        if !IsFalsy(v1) { ReplaceSetsValues(doc, DnsDatabaseInfo, v1); }
      } else {
        ReplaceKeepsOthers(doc, DnsDatabaseInfo, v1, name);
      }
    }
    assert GetConfigValues(d2, name) == if name == DatabaseMirror && !IsFalsy(v2) then ValueList(v2) else GetConfigValues(d1, name) by {
      if name == DatabaseMirror {
        if !IsFalsy(v2) { ReplaceSetsValues(d1, DatabaseMirror, v2); }
      } else {
        ReplaceKeepsOthers(d1, DatabaseMirror, v2, name);
      }
    }
    assert GetConfigValues(d3, name) == if name == PrivateMirror && !IsFalsy(v3) then ValueList(v3) else GetConfigValues(d2, name) by {
      if name == PrivateMirror {
        if !IsFalsy(v3) { ReplaceSetsValues(d2, PrivateMirror, v3); }
      } else {
        ReplaceKeepsOthers(d2, PrivateMirror, v3, name);
      }
    }
  }

  /**
   * After a successful fix, a name given custom values holds exactly those, even when it is
   * one of the three fixed names: the custom values are applied last and win. Any
   * other name holds what the three replacements left.
   */
  lemma FixValues(doc: Doc, opts: Options, name: string)
    ensures var custom := if opts.customValue.Some? then Custom.ParseCustomValues(opts.customValue.value) else Success([]);
            var given := if custom.Success? then Custom.ValuesOf(custom.value, name) else [];
            Fix(doc, opts).Success? ==>
            (GetConfigValues(Fix(doc, opts).value, name)
             == if given != [] then given
                else if IsFalsy(OptionFor(opts, name)) then GetConfigValues(doc, name)
                else ValueList(OptionFor(opts, name)))
  {
    var d := ReplaceOptions(doc, opts);
    ReplaceOptionsValues(doc, opts, name);
    if opts.customValue.Some? && opts.customValue.value != [] {
      if Custom.ParseCustomValues(opts.customValue.value).Success? {
        Custom.ReplaceCustomValuesSetsValues(d, opts.customValue.value, name);
      }
    } else if opts.customValue.Some? {
      assert Custom.Parses([]) == [];
      assert Custom.ParseCustomValues([]) == Success([]);
    }
  }

  /**
   * With every option unset, the command rewrites the document it read, unchanged; it
   * fails only on an empty file, which has no last line to look at.
   */
  lemma RunWithoutOptions(text: string)
    ensures var r := Run(text, Options(None, None, None, None));
            && (r.Failure? <==> text == [])
            && (r.Success? ==> r.value == Serializer.Serialize(ReadText(text)).value)
  {
    var lines := Text.FileLines(text);
    assert |ReadText(text)| == |lines|;
    if lines == [] {
      assert Text.Concat(lines) == [];
    }
  }

  /** An invalid custom value stops the command before anything is written. */
  lemma RunInvalidCustomValue(text: string, opts: Options)
    requires opts.customValue.Some? && opts.customValue.value != []
    requires exists i | 0 <= i < |opts.customValue.value| :: Text.NoSpace(Text.Strip(opts.customValue.value[i]))
    ensures Run(text, opts).Failure? && Run(text, opts).error.CustomError?
  {
    Custom.ReplaceCustomValuesFails(ReplaceOptions(ReadText(text), opts), opts.customValue.value);
  }
}
