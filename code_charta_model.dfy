/**
 * The records of CodeCharta's visualisation: the node tree of one analysed project, the
 * metric catalogue, the blacklist and a loaded file. JavaScript fields that may be
 * `undefined` or `null` are `Option`s.
 */
module CodeChartaModel {
  import opened Wrappers

  /** Metric name to value (JavaScript numbers are modelled as reals). */
  type Metrics = map<string, real>

  /** The two directions of an edge metric at one node. */
  datatype EdgeMetricCount = EdgeMetricCount(incoming: real, outgoing: real)

  type EdgeMetrics = map<string, EdgeMetricCount>

  /**
   * A package/directory (non-empty `children`) or a file (no children). `path` and `id` are
   * placeholders until the file is pre-decorated; `isExcluded` and `isFlattened` are `false`
   * (JavaScript: `undefined`) until the blacklist is applied.
   */
  datatype Node = Node(
    name: string,
    path: string,
    id: nat,
    children: seq<Node>,
    attributes: Option<Metrics>,
    edgeAttributes: Option<EdgeMetrics>,
    deltas: Option<Metrics>,
    link: Option<string>,
    isExcluded: bool,
    isFlattened: bool)

  /** How a metric is aggregated: summed (absolute) or by median (relative). */
  datatype AttributeTypeValue = Absolute | Relative

  /**
   * Metric name to aggregation kind, for node metrics and for edge metrics; a file without
   * attribute types carries `{}`, where both halves are missing.
   */
  datatype AttributeTypes = AttributeTypes(
    nodes: Option<map<string, AttributeTypeValue>>,
    edges: Option<map<string, AttributeTypeValue>>)

  /** One entry of the metric catalogue; only its name is read by the core. */
  datatype MetricData = MetricData(name: string)

  /** The names in a metric catalogue. */
  function Names(metricData: seq<MetricData>): set<string> {
    set i | 0 <= i < |metricData| :: metricData[i].name
  }

  datatype BlacklistType = Flatten | Exclude

  /** A user rule: a glob pattern and whether matching nodes are flattened or excluded. */
  datatype BlacklistItem = BlacklistItem(path: string, kind: BlacklistType)

  /** A dependency between two nodes with its own metrics. */
  datatype Edge = Edge(fromNodeName: string, toNodeName: string, attributes: Metrics)

  datatype FileMeta = FileMeta(fileName: string, projectName: string, apiVersion: string)

  datatype FileSettings = FileSettings(
    edges: seq<Edge>,
    attributeTypes: AttributeTypes,
    blacklist: seq<BlacklistItem>)

  datatype Settings = Settings(fileSettings: FileSettings)

  /** A loaded file: its metadata, its settings and its node tree, the field `map` (`undefined` when there is none). */
  datatype CCFile = CCFile(fileMeta: FileMeta, settings: Settings, codeMap: Option<Node>)

  /** The parsed JSON of a `.cc.json` file; fields the file may omit are `Option`s. */
  datatype FileContent = FileContent(
    projectName: string,
    apiVersion: string,
    nodes: seq<Node>,
    edges: Option<seq<Edge>>,
    attributeTypes: Option<AttributeTypes>,
    blacklist: Option<seq<BlacklistItem>>)
}
