/**
  The banned-sub-package policy check of the content-package validation
  framework: for every candidate node path ending in `.zip`, every configured
  `"group:name"` entry is either reported as malformed or compared with the
  identity declared by the embedded archive.

  Opening the embedded archive is file I/O. It is given to the model as an
  oracle from the node's (base path, file path) location to what opening the
  archive there yields.
 */
module BannedSubPackages {
  import opened Wrappers
  import opened JavaStrings
  import opened FlatMaps

  datatype Severity = Info | Warn | Error

  datatype ValidationMessage = ValidationMessage(severity: Severity, text: string)

  /** One candidate entry of the package being validated. */
  datatype NodeContext = NodeContext(nodePath: string, filePath: string, basePath: string)

  /** The identity a content package declares in its package properties; the version is never compared. */
  datatype PackageId = PackageId(group: string, name: string, version: string)

  /** What opening a file as a nested archive yields. */
  datatype SubArchive =
    | Unreadable                    // opening or reading it threw an IOException
    | NoJcrRoot                     // a zip, but without the jcr_root entry of a content package
    | ContentPackage(id: PackageId) // a genuine content package

  /** The archive found at (base path, file path). */
  type Archives = (string, string) -> SubArchive

  /** A well-formed banned entry. */
  datatype BannedEntry = BannedEntry(group: string, name: string)

  /** Whether a node path names a sub-package: any path with the `.zip` suffix. */
  function IsSubPackage(nodePath: string): (r: bool)
    ensures r <==> exists stem :: nodePath == stem + ".zip"
  {
    EndsWith(nodePath, ".zip")
  }

  /**
    A configured entry is well formed when `split(":")` yields exactly two
    pieces; group and name are pieces 0 and 1 of that one split.
   */
  function ParseEntry(entry: string): (r: Option<BannedEntry>)
    ensures r.Some? ==> Split(entry, ':') == [r.value.group, r.value.name]
    ensures r.Some? ==> ':' !in r.value.group && ':' !in r.value.name && r.value.name != ""
    ensures r.None? ==> |Split(entry, ':')| != 2
  {
    var parts := Split(entry, ':');
    if |parts| == 2 then Some(BannedEntry(parts[0], parts[1])) else None
  }

  const ConfigErrorPrefix: string := "Incorrect configuration of banned package: "
  const BannedFoundPrefix: string := "Found banned sub-package, group: "
  const NameLabel: string := ", name: "

  /** The configuration error: a fixed prefix followed by the entry exactly as configured. */
  function ConfigErrorText(entry: string): (r: string)
    ensures |r| == |ConfigErrorPrefix| + |entry|
    ensures r[..|ConfigErrorPrefix|] == ConfigErrorPrefix && r[|ConfigErrorPrefix|..] == entry
  {
    ConfigErrorPrefix + entry
  }

  /** The violation: a fixed prefix, then the group, the name label and the name. */
  function BannedFoundText(group: string, name: string): (r: string)
    ensures |r| == |BannedFoundPrefix| + |group| + |NameLabel| + |name|
    ensures r[..|BannedFoundPrefix|] == BannedFoundPrefix
    ensures r[|BannedFoundPrefix|..][..|group|] == group
    ensures r[|BannedFoundPrefix| + |group|..][..|NameLabel|] == NameLabel
    ensures r[|BannedFoundPrefix| + |group| + |NameLabel|..] == name
  {
    var r := BannedFoundPrefix + group + NameLabel + name;
    assert r == BannedFoundPrefix + (group + (NameLabel + name));
    r
  }

  /** The violation, if any, that one well-formed entry raises against the archive found. */
  function SubPackageFindings(severity: Severity, archive: SubArchive, banned: BannedEntry): (r: seq<ValidationMessage>)
    ensures |r| <= 1
    ensures r != [] <==> archive.ContentPackage? && archive.id.group == banned.group && archive.id.name == banned.name
    ensures forall m <- r :: m == ValidationMessage(severity, BannedFoundText(banned.group, banned.name))
  {
    match archive
    case ContentPackage(id) =>
      if banned.group == id.group && banned.name == id.name
      then [ValidationMessage(severity, BannedFoundText(banned.group, banned.name))]
      else []
    case _ => []
  }

  /** The messages one configured entry contributes for one node. */
  function EntryMessages(severity: Severity, entry: string, nodeContext: NodeContext, archives: Archives): (r: seq<ValidationMessage>)
    ensures |r| <= 1
    ensures forall m <- r :: m.severity == severity
    ensures !IsSubPackage(nodeContext.nodePath) ==> r == []
  {
    if !IsSubPackage(nodeContext.nodePath) then []
    else match ParseEntry(entry)
      case None => [ValidationMessage(severity, ConfigErrorText(entry))]
      case Some(banned) => SubPackageFindings(severity, archives(nodeContext.basePath, nodeContext.filePath), banned)
  }

  /** The check of one configured entry against one node. */
  function EntryCheck(severity: Severity, nodeContext: NodeContext, archives: Archives): (check: string -> seq<ValidationMessage>)
  {
    entry => EntryMessages(severity, entry, nodeContext, archives)
  }

  /**
    The messages of all configured entries, in the order they are visited:
    at most one per entry, each at the configured severity.
   */
  function PathMessages(severity: Severity, entries: seq<string>, nodeContext: NodeContext, archives: Archives): (r: seq<ValidationMessage>)
    ensures |r| <= |entries|
    ensures forall m <- r :: m.severity == severity
  {
    var check := EntryCheck(severity, nodeContext, archives);
    FlatMapAtMostOne(check, entries);
    FlatMapAll(check, entries, (m: ValidationMessage) => m.severity == severity);
    FlatMap(check, entries)
  }

  /** The message list the validator fills; callers add to it in place. */
  class MessageCollection {
    var items: seq<ValidationMessage>

    constructor ()
      ensures items == []
    {
      items := [];
    }

    method Add(message: ValidationMessage)
      modifies this
      ensures items == old(items) + [message]
    {
      items := items + [message];
    }
  }

  class BannedSubPackageValidator {
    const severity: Severity
    /** Whether this validator runs inside a sub-package of the package being validated. */
    const isSubPackage: bool
    /** The configured `"group:name"` entries, in iteration order. */
    const bannedSubPackages: seq<string>

    constructor (severity: Severity, isSubPackage: bool, bannedSubPackages: seq<string>)
      ensures this.severity == severity
      ensures this.isSubPackage == isSubPackage
      ensures this.bannedSubPackages == bannedSubPackages
    {
      this.severity := severity;
      this.isSubPackage := isSubPackage;
      this.bannedSubPackages := bannedSubPackages;
    }

    /**
      `None` (no opinion) inside a sub-package; otherwise the messages of
      every configured entry for this node, possibly none.
     */
    method ValidateJcrPath(nodeContext: NodeContext, archives: Archives) returns (r: Option<seq<ValidationMessage>>)
      ensures isSubPackage ==> r == None
      ensures !isSubPackage ==> r == Some(PathMessages(severity, bannedSubPackages, nodeContext, archives))
    {
      if isSubPackage {
        return None;
      }
      var messages := new MessageCollection();
      for i := 0 to |bannedSubPackages|
        invariant messages.items == PathMessages(severity, bannedSubPackages[..i], nodeContext, archives)
      {
        var bannedSubPackage := bannedSubPackages[i];
        assert bannedSubPackages[..i + 1] == bannedSubPackages[..i] + [bannedSubPackage];
        FlatMapSnoc(EntryCheck(severity, nodeContext, archives), bannedSubPackages[..i], bannedSubPackage);
        if IsSubPackage(nodeContext.nodePath) {
          if |Split(bannedSubPackage, ':')| == 2 {
            var bannedGroup := Split(bannedSubPackage, ':')[0];
            var bannedName := Split(bannedSubPackage, ':')[1];
            ValidateSubPackage(nodeContext, messages, bannedGroup, bannedName, archives);
          } else {
            messages.Add(ValidationMessage(severity, ConfigErrorText(bannedSubPackage)));
          }
        }
      }
      assert bannedSubPackages[..|bannedSubPackages|] == bannedSubPackages;
      return Some(messages.items);
    }

    /** Adds a violation when the archive at the node is a content package with the banned group and name. */
    method ValidateSubPackage(nodeContext: NodeContext, messages: MessageCollection, bannedGroup: string, bannedName: string, archives: Archives)
      modifies messages
      ensures messages.items == old(messages.items)
        + SubPackageFindings(severity, archives(nodeContext.basePath, nodeContext.filePath), BannedEntry(bannedGroup, bannedName))
    {
      var subArchive := archives(nodeContext.basePath, nodeContext.filePath);
      match subArchive
      case Unreadable =>
        // the IOException is logged and swallowed
      case NoJcrRoot =>
        // not a content package: logged at debug level
      case ContentPackage(id) =>
        if bannedGroup == id.group && bannedName == id.name {
          messages.Add(ValidationMessage(severity, BannedFoundText(bannedGroup, bannedName)));
        }
    }

    /** Nothing is accumulated across nodes, so there is nothing to report at the end. */
    method Done() returns (r: Option<seq<ValidationMessage>>)
      ensures r == None
    {
      r := None;
    }
  }
}
