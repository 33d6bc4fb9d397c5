/**
 * `display_format`, the `DISPLAYS` table and `display_metadata`: the display
 * name is checked, a renderer is picked, the metadata is fetched and
 * rendered.
 */
module Display {
  import opened Wrappers
  import opened PyStr
  import opened Metadata
  import opened Tables
  import opened RichTree
  import opened MetadataTree

  datatype Renderer = TableRenderer | TreeRenderer

  /** `DISPLAYS`: display name to renderer. */
  const Displays: map<string, Renderer> := map["table" := TableRenderer, "tree" := TreeRenderer]

  /** The text of the `BadParameter` raised by `display_format`, with `DISPLAYS.keys()` rendered. */
  const BadFormatMessage: string := "Format must be one of: dict_keys(['table', 'tree'])"

  /** `typer.BadParameter`, a `KeyError` from a dict lookup, an `IndexError` from `[0]`. */
  datatype Error = BadParameter(message: string) | KeyError(key: string) | IndexError

  /**
   * `display_format(value)` as written: the test is on `value.lower()`, but
   * the value passed on is `value` itself, not lower-cased.
   */
  function DisplayFormat(value: string): (r: Result<string, Error>)
    ensures r.Failure? <==> Lower(value) !in Displays
    ensures r.Failure? ==> r.error == BadParameter(BadFormatMessage)
    ensures r.Success? ==> r.value == value
  {
    if Lower(value) !in Displays then Failure(BadParameter(BadFormatMessage)) else Success(value)
  }

  /**
   * The option callback, then `DISPLAYS[display]` on what it returned, as
   * written: only the exact keys select a renderer, and every other name the
   * callback accepts (one that is a key only once lower-cased) passes
   * validation and then fails the lookup with `KeyError`.
   */
  function SelectAsWritten(value: string): (r: Result<Renderer, Error>)
    ensures r.Success? <==> value in Displays
    ensures r.Success? ==> r.value == Displays[value]
    ensures (r.Failure? && r.error.KeyError?) <==> (Lower(value) in Displays && value !in Displays)
    ensures r.Failure? && r.error.KeyError? ==> r.error.key == value
    ensures Lower(value) !in Displays ==> r == Failure(BadParameter(BadFormatMessage))
  {
    DisplaysKeysAreLower(value);
    match DisplayFormat(value)
    case Failure(e) => Failure(e)
    case Success(d) => if d in Displays then Success(Displays[d]) else Failure(KeyError(d))
  }

  /** `--display TABLE`: accepted by `display_format`, then `DISPLAYS["TABLE"]` raises `KeyError`. */
  lemma UpperCaseTableFails()
    ensures DisplayFormat("TABLE") == Success("TABLE")
    ensures SelectAsWritten("TABLE") == Failure(KeyError("TABLE"))
  {
    assert Lower("TABLE") == "table" by {
      assert Lower("TABLE") == [LowerChar('T')] + Lower("ABLE");
      assert Lower("ABLE") == [LowerChar('A')] + Lower("BLE");
      assert Lower("BLE") == [LowerChar('B')] + Lower("LE");
      assert Lower("LE") == [LowerChar('L')] + Lower("E");
      assert Lower("E") == [LowerChar('E')] + Lower("");
    }
  }

  /** The evident intent: the callback passes on the lower-cased name it has checked. */
  function DisplayFormatLowered(value: string): (r: Result<string, Error>)
    ensures r.Failure? <==> Lower(value) !in Displays
    ensures r.Failure? ==> r.error == BadParameter(BadFormatMessage)
    ensures r.Success? ==> r.value == Lower(value) && r.value in Displays
  {
    if Lower(value) !in Displays then Failure(BadParameter(BadFormatMessage)) else Success(Lower(value))
  }

  /**
   * The corrected selection: the lookup can no longer fail, every spelling of
   * "table" or "tree" picks its renderer, and any other name is refused.
   */
  function Select(value: string): (r: Result<Renderer, Error>)
    ensures r.Success? <==> Lower(value) in Displays
    ensures r.Success? ==> r.value == Displays[Lower(value)]
    ensures r.Failure? ==> r.error == BadParameter(BadFormatMessage)
  {
    match DisplayFormatLowered(value)
    case Failure(e) => Failure(e)
    case Success(d) => Success(Displays[d])
  }

  /** Where the as-written selection succeeds, the corrected one agrees with it. */
  lemma SelectExtendsAsWritten(value: string)
    requires SelectAsWritten(value).Success?
    ensures Select(value) == SelectAsWritten(value)
  {
    DisplaysKeysAreLower(value);
  }

  /** Lower-casing a name that is a key of `DISPLAYS` gives the name back. */
  lemma DisplaysKeysAreLower(value: string)
    ensures value in Displays ==> Lower(value) == value
  {
    if value in Displays {
      assert Lower("table") == [LowerChar('t')] + Lower("able");
      assert Lower("tree") == [LowerChar('t')] + Lower("ree");
    }
  }

  /** What `display_metadata` prints. */
  datatype Output = TableOutput(headers: seq<string>, rows: seq<seq<string>>) | TreeOutput(tree: Arena)

  /**
   * `display_metadata(filepath, filter, display)`: the display name is
   * checked first, then the renderer looked up, then the metadata fetched
   * (`records` is what the extractor returned for the file) and rendered.
   * Uses the corrected `Select`.
   */
  method DisplayMetadata<V>(filepath: string, filter: Option<string>, display: string,
                            records: seq<seq<(string, V)>>, str: V -> string)
    returns (r: Result<Output, Error>)
    ensures Lower(display) !in Displays ==> r == Failure(BadParameter(BadFormatMessage))
    ensures Lower(display) in Displays && records == [] ==> r == Failure(IndexError)
    ensures Lower(display) == "table" && records != [] ==>
              var meta := FilterMetadata(records[0], filter);
              && r.Success? && r.value.TableOutput?
              && r.value.headers == ["Field", "Value"]
              && |r.value.rows| == |meta|
              && forall i :: 0 <= i < |meta| ==> r.value.rows[i] == [meta[i].0, str(meta[i].1)]
    ensures Lower(display) == "tree" && records != [] ==>
              r == Success(TreeOutput(BuildTree(filepath, FilterMetadata(records[0], filter), str).tree))
  {
    var selected := Select(display);
    if selected.Failure? {
      return Failure(selected.error);
    }
    var fetched := FetchMetadata(records, filter);
    if fetched.Failure? {
      return Failure(IndexError);
    }
    var meta := fetched.value;
    match selected.value
    case TableRenderer =>
      var table := MetadataTable(filepath, meta, str);
      r := Success(TableOutput(table.headers, table.rows));
    case TreeRenderer =>
      var tree := MetadataTreeOf(filepath, meta, str);
      r := Success(TreeOutput(tree.Snapshot()));
  }
}
