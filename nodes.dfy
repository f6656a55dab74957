/**
 * The graph's value types: locations, names and nodes, compared structurally, and
 * the exceptions the builder raises.
 */
module Nodes {
  import opened Paths

  /** DotPathModel: a dotted import address, outermost segment first. */
  datatype DotPath = DotPath(parts: seq<string>)

  /** LocationModel: where a node lives, in the filesystem or in Python. */
  datatype Location =
    | FilesystemLocation(filePath: Path)
    | PythonModuleLocation(filePath: Path, importRoot: Path, importPath: DotPath)
    | PythonObjectLocation(filePath: Path, importRoot: Path, importPath: DotPath, refPath: DotPath)

  /** NameModel. */
  datatype NodeName = NodeName(shortName: string, longName: string, aliases: seq<string>)

  /**
   * NodeModel: the variant is the node_type discriminator. As in the source, the
   * variant does not constrain which kind of location a node holds.
   */
  datatype Node =
    | FilesystemNode(location: Location, name: NodeName)
    | PythonModuleNode(location: Location, name: NodeName)
    | PythonObjectNode(location: Location, name: NodeName)

  /** The exceptions raised while classifying paths and listing directories. */
  datatype Error =
    | PathDoesNotExist(path: Path)
    | PathIsNotFileOrDirectory(path: Path)
    | PathIsNotPythonModule(path: Path)
    | CannotListDirectory(path: Path)
}
