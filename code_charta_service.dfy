/**
 * The record the visualisation builds from a loaded file's content (`getCCFile`), and the
 * name and path of the root node.
 */
module CodeChartaService {
  import opened Wrappers
  import opened Strings
  import opened CodeChartaModel
  import opened Hierarchy
  import opened NodeDecorator

  const ROOT_NAME: string := "root"
  const ROOT_PATH: string := "/" + ROOT_NAME

  /**
   * `ROOT_PATH` is the path the path decorator gives a root node named `ROOT_NAME`, and the
   * path of every node below such a root starts with it.
   */
  lemma RootPath(n: Node, p: Pos)
    requires n.name == ROOT_NAME && ValidPos(n, p)
    ensures PathOf(n, []) == ROOT_PATH
    ensures p != [] ==> |ROOT_PATH| < |PathOf(n, p)| && PathOf(n, p)[..|ROOT_PATH| + 1] == ROOT_PATH + "/"
  {
    assert NamesAlong(n, []) == [ROOT_NAME];
    if p != [] {
      var rest := NamesAlong(n.children[p[0]], p[1..]);
      assert NamesAlong(n, p) == [ROOT_NAME] + rest;
      assert Join([ROOT_NAME] + rest, '/') == ROOT_NAME + "/" + Join(rest, '/');
      assert PathOf(n, p) == ROOT_PATH + "/" + Join(rest, '/');
    }
  }

  /**
   * `getCCFile`: the file name with the content's project name and API version; the edges,
   * attribute types and blacklist of the content, or `[]`, `{}` and `[]` when it has none;
   * the first of its nodes as the map (none when `nodes` is empty).
   */
  function GetCCFile(fileName: string, content: FileContent): (file: CCFile)
    ensures file.fileMeta == FileMeta(fileName, content.projectName, content.apiVersion)
    ensures file.settings.fileSettings.edges == content.edges.GetOr([])
    ensures content.attributeTypes.None? ==> file.settings.fileSettings.attributeTypes == AttributeTypes(None, None)
    ensures content.attributeTypes.Some? ==> file.settings.fileSettings.attributeTypes == content.attributeTypes.value
    ensures file.settings.fileSettings.blacklist == content.blacklist.GetOr([])
    ensures file.codeMap.Some? <==> |content.nodes| > 0
    ensures |content.nodes| > 0 ==> file.codeMap.value == content.nodes[0]
  {
    CCFile(
      FileMeta(fileName, content.projectName, content.apiVersion),
      Settings(FileSettings(
        content.edges.GetOr([]),
        content.attributeTypes.GetOr(AttributeTypes(None, None)),
        content.blacklist.GetOr([]))),
      if |content.nodes| > 0 then Some(content.nodes[0]) else None)
  }

  /**
   * A file content with all its optional parts, read back from the record: what `getCCFile`
   * keeps can be recovered, so nothing given is lost.
   */
  lemma GetCCFileKeepsContent(fileName: string, content: FileContent)
    requires content.edges.Some? && content.attributeTypes.Some? && content.blacklist.Some?
    requires |content.nodes| > 0
    ensures
      var file := GetCCFile(fileName, content);
      FileContent(file.fileMeta.projectName, file.fileMeta.apiVersion, [file.codeMap.value] + content.nodes[1..],
                  Some(file.settings.fileSettings.edges), Some(file.settings.fileSettings.attributeTypes),
                  Some(file.settings.fileSettings.blacklist)) == content
  {
    assert [content.nodes[0]] + content.nodes[1..] == content.nodes;
  }
}
