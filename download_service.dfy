/**
 * The names the visualisation gives to a downloaded map: the current date inserted after
 * the first `.`-separated part of the file name, then a `.json` ending when there is none.
 * The date is passed in: day of month, zero-based month index (JavaScript's `getMonth()`)
 * and full year.
 */
module DownloadService {
  import opened Strings
  import opened CodeChartaModel

  /** `getDate() + "_" + (getMonth() + 1) + "_" + getFullYear()`: day, one-based month, year. */
  function DateString(day: nat, monthIndex: nat, year: int): (s: string)
    ensures '.' !in s
    ensures Split(s, '_') == [NatToString(day), NatToString(monthIndex + 1), IntToString(year)]
  {
    var parts := [NatToString(day), NatToString(monthIndex + 1), IntToString(year)];
    forall i | 0 <= i < |parts|
      ensures '.' !in parts[i] && '_' !in parts[i]
    {
      if i == 2 && year < 0 {
        assert parts[2] == "-" + NatToString(-year);
      }
    }
    SplitJoin(parts, '_');
    NoSeparatorInJoin(parts, '_', '.');
    Join(parts, '_')
  }

  /** Joining pieces free of `c` with a separator other than `c` gives a string free of `c`. */
  lemma {:induction false} NoSeparatorInJoin(parts: seq<string>, sep: char, c: char)
    requires sep != c
    requires forall i :: 0 <= i < |parts| ==> c !in parts[i]
    ensures c !in Join(parts, sep)
  {
    if |parts| > 1 {
      NoSeparatorInJoin(parts[1..], sep, c);
    }
  }

  /** `tokens.splice(1, 0, x)`: `x` is put after the first token (at the end of a one-token list). */
  function SpliceSecond(tokens: seq<string>, x: string): (r: seq<string>)
    requires |tokens| > 0
    ensures |r| == |tokens| + 1 && r[0] == tokens[0] && r[1] == x && r[2..] == tokens[1..]
  {
    tokens[..1] + [x] + tokens[1..]
  }

  /**
   * `addDateToFileName`: split on `.`, put the date after the first token, join with `.`.
   * Read back, the name's tokens are its first token, the date, then its other tokens.
   */
  function AddDateToFileName(fileName: string, day: nat, monthIndex: nat, year: int): (r: string)
    ensures Split(r, '.') == SpliceSecond(Split(fileName, '.'), DateString(day, monthIndex, year))
  {
    var tokens := Split(fileName, '.');
    var dated := SpliceSecond(tokens, DateString(day, monthIndex, year));
    assert forall i :: 0 <= i < |dated| ==> '.' !in dated[i] by {
      forall i | 2 <= i < |dated| ensures '.' !in dated[i] {
        assert dated[i] == tokens[i - 1];
      }
    }
    SplitJoin(dated, '.');
    Join(dated, '.')
  }

  /** Taking the date token out again gives the original name. */
  lemma DateTokenRemovable(fileName: string, day: nat, monthIndex: nat, year: int)
    ensures
      var tokens := Split(AddDateToFileName(fileName, day, monthIndex, year), '.');
      Join(tokens[..1] + tokens[2..], '.') == fileName
  {
    var tokens := Split(AddDateToFileName(fileName, day, monthIndex, year), '.');
    assert tokens[..1] + tokens[2..] == Split(fileName, '.');
    JoinSplit(fileName, '.');
  }

  /** A name without a dot gets `.` and the date appended. */
  lemma NoDotFileName(fileName: string, day: nat, monthIndex: nat, year: int)
    requires '.' !in fileName
    ensures AddDateToFileName(fileName, day, monthIndex, year) == fileName + "." + DateString(day, monthIndex, year)
  {
    var date := DateString(day, monthIndex, year);
    assert Split(fileName, '.') == [fileName] by {
      SplitJoin([fileName], '.');
    }
    var dated := SpliceSecond([fileName], date);
    assert dated == [fileName, date];
    assert dated[1..] == [date];
    assert Join(dated, '.') == fileName + ['.'] + Join([date], '.');
  }

  const JSON_ENDING: string := ".json"

  /** `addJsonFileEndingIfNecessary`: `.json` is appended unless the name already ends with it. */
  function AddJsonFileEndingIfNecessary(fileName: string): (r: string)
    ensures EndsWith(r, JSON_ENDING)
    ensures |fileName| <= |r| && r[..|fileName|] == fileName
    ensures EndsWith(fileName, JSON_ENDING) <==> r == fileName
    ensures !EndsWith(fileName, JSON_ENDING) ==> r == fileName + JSON_ENDING
  {
    if !EndsWith(fileName, JSON_ENDING) then
      EndsWithAfterPrefix(fileName, JSON_ENDING);
      fileName + JSON_ENDING
    else fileName
  }

  /** Adding the ending twice is adding it once. */
  lemma JsonEndingIdempotent(fileName: string)
    ensures AddJsonFileEndingIfNecessary(AddJsonFileEndingIfNecessary(fileName)) == AddJsonFileEndingIfNecessary(fileName)
  {
  }

  /** Splitting at a separator placed between two strings splits each of them. */
  lemma {:induction false} SplitAround(a: string, b: string, sep: char)
    ensures Split(a + [sep] + b, sep) == Split(a, sep) + Split(b, sep)
  {
    if a == [] {
      assert a + [sep] + b == [sep] + b;
      assert ([sep] + b)[1..] == b;
    } else {
      assert (a + [sep] + b)[0] == a[0];
      assert (a + [sep] + b)[1..] == a[1..] + [sep] + b;
      SplitAround(a[1..], b, sep);
    }
  }

  /**
   * The name of a downloaded map (`downloadCurrentMap`): dated, then given its `.json` ending.
   * It ends with `.json` and its second `.`-separated token is the date.
   */
  function DownloadFileName(fileName: string, day: nat, monthIndex: nat, year: int): (r: string)
    ensures EndsWith(r, JSON_ENDING)
    ensures |Split(r, '.')| >= 2 && Split(r, '.')[0] == Split(fileName, '.')[0]
    ensures Split(r, '.')[1] == DateString(day, monthIndex, year)
  {
    var dated := AddDateToFileName(fileName, day, monthIndex, year);
    JsonEndingKeepsTokens(dated);
    AddJsonFileEndingIfNecessary(dated)
  }

  /** The ending adds at most one token, `json`, after the name's own tokens. */
  lemma JsonEndingKeepsTokens(fileName: string)
    ensures var tokens := Split(AddJsonFileEndingIfNecessary(fileName), '.');
      tokens == Split(fileName, '.') || tokens == Split(fileName, '.') + ["json"]
  {
    if !EndsWith(fileName, JSON_ENDING) {
      assert fileName + JSON_ENDING == fileName + "." + "json";
      SplitAround(fileName, "json", '.');
      assert Split("json", '.') == ["json"] by {
        SplitJoin(["json"], '.');
      }
    }
  }

  /** The map settings the download reads (the fields of `settings.map`). */
  datatype MapSettings = MapSettings(
    fileName: string, projectName: string, apiVersion: string, root: Node,
    edges: seq<Edge>, attributeTypes: AttributeTypes)

  /** The JSON object that is written out. */
  datatype ExportedMap = ExportedMap(
    fileName: string, projectName: string, apiVersion: string, nodes: seq<Node>,
    edges: seq<Edge>, attributeTypes: AttributeTypes, blacklist: seq<BlacklistItem>)

  /**
   * The data of `downloadCurrentMap`: the map's root as the only node, its edges and
   * attribute types, the current blacklist, under the downloaded file name.
   */
  function DownloadCurrentMap(current: MapSettings, blacklist: seq<BlacklistItem>, day: nat, monthIndex: nat, year: int): (data: ExportedMap)
    ensures data.nodes == [current.root]
    ensures data.fileName == DownloadFileName(current.fileName, day, monthIndex, year)
    ensures data.projectName == current.projectName && data.apiVersion == current.apiVersion
    ensures data.edges == current.edges && data.attributeTypes == current.attributeTypes && data.blacklist == blacklist
  {
    ExportedMap(DownloadFileName(current.fileName, day, monthIndex, year), current.projectName, current.apiVersion,
                [current.root], current.edges, current.attributeTypes, blacklist)
  }
}
