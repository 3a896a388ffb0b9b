/**
  What the banned-sub-package check guarantees, for every configuration,
  every node and every archive oracle.
 */
module BannedSubPackageProperties {
  import opened Wrappers
  import opened JavaStrings
  import opened FlatMaps
  import opened BannedSubPackages

  /** A well-formed entry is `group:name` followed by any number of colons, with no colon inside group or name and a non-empty name. */
  lemma ParseEntryShape(entry: string, group: string, name: string)
    ensures ParseEntry(entry) == Some(BannedEntry(group, name)) <==>
      ':' !in group && ':' !in name && name != "" &&
      exists k: nat :: entry == group + ":" + name + Repeat(':', k)
  {
    SplitPairIff(entry, ':', group, name);
  }

  lemma ParseEntryExamples()
    ensures ParseEntry("wrong-config") == None
    ensures ParseEntry("") == None
    ensures ParseEntry(":") == None
    ensures ParseEntry("a:") == None
    ensures ParseEntry("a::b") == None
    ensures ParseEntry("a:b:") == Some(BannedEntry("a", "b"))
    ensures ParseEntry(":b") == Some(BannedEntry("", "b"))
  {
    SplitWithoutSeparator();
    SplitLoneSeparator();
    SplitEmptyLastPiece();
    SplitInnerEmptyPiece();
    SplitTrailingSeparator();
    SplitLeadingSeparator();
  }

  /** Outside a `.zip` path, or with nothing configured, the result is an empty list. */
  lemma NotApplicableYieldsEmpty(severity: Severity, entries: seq<string>, nodeContext: NodeContext, archives: Archives)
    requires !IsSubPackage(nodeContext.nodePath) || entries == []
    ensures PathMessages(severity, entries, nodeContext, archives) == []
  {
    FlatMapNone(EntryCheck(severity, nodeContext, archives), entries);
  }

  /** A malformed entry yields the configuration error and nothing else, whatever the archive holds. */
  lemma MalformedEntryIgnoresArchive(severity: Severity, entry: string, nodeContext: NodeContext, archives: Archives, others: Archives)
    requires IsSubPackage(nodeContext.nodePath)
    requires |Split(entry, ':')| != 2
    ensures EntryMessages(severity, entry, nodeContext, archives) == [ValidationMessage(severity, ConfigErrorText(entry))]
    ensures EntryMessages(severity, entry, nodeContext, archives) == EntryMessages(severity, entry, nodeContext, others)
  {
  }

  /** Every malformed entry is reported for every `.zip` node. */
  lemma MalformedEntryReported(severity: Severity, entries: seq<string>, nodeContext: NodeContext, archives: Archives, i: nat)
    requires IsSubPackage(nodeContext.nodePath)
    requires i < |entries| && |Split(entries[i], ':')| != 2
    ensures ValidationMessage(severity, ConfigErrorText(entries[i])) in PathMessages(severity, entries, nodeContext, archives)
  {
    FlatMapMember(EntryCheck(severity, nodeContext, archives), entries, ValidationMessage(severity, ConfigErrorText(entries[i])));
  }

  /**
    A configuration error naming `entry` is reported, at the configured
    severity, exactly when the node is a `.zip` and some configured entry
    equal to `entry` is malformed.
   */
  lemma ConfigErrorReportedIff(severity: Severity, entries: seq<string>, nodeContext: NodeContext, archives: Archives,
                               reported: Severity, entry: string)
    ensures ValidationMessage(reported, ConfigErrorText(entry)) in PathMessages(severity, entries, nodeContext, archives)
      <==>
      && reported == severity
      && IsSubPackage(nodeContext.nodePath)
      && exists i | 0 <= i < |entries| :: entries[i] == entry && ParseEntry(entries[i]) == None
  {
    var m := ValidationMessage(reported, ConfigErrorText(entry));
    FlatMapMember(EntryCheck(severity, nodeContext, archives), entries, m);
    if m in PathMessages(severity, entries, nodeContext, archives) {
      var i :| 0 <= i < |entries| && m in EntryMessages(severity, entries[i], nodeContext, archives);
      match ParseEntry(entries[i])
      case None =>
        assert ConfigErrorText(entries[i]) == ConfigErrorText(entry);
        assert entries[i] == ConfigErrorText(entries[i])[|ConfigErrorPrefix|..] == entry;
      case Some(banned) =>
        TextsDistinct(entry, banned.group, banned.name);
    }
  }

  /**
    A well-formed entry yields the violation for its group and name exactly
    when the archive is a content package declaring that group and name,
    and nothing otherwise.
   */
  lemma WellFormedEntryFinding(severity: Severity, entry: string, nodeContext: NodeContext, archives: Archives)
    requires IsSubPackage(nodeContext.nodePath)
    requires |Split(entry, ':')| == 2
    ensures var group, name := Split(entry, ':')[0], Split(entry, ':')[1];
      var archive := archives(nodeContext.basePath, nodeContext.filePath);
      var found := archive.ContentPackage? && archive.id.group == group && archive.id.name == name;
      && (found ==> EntryMessages(severity, entry, nodeContext, archives) == [ValidationMessage(severity, BannedFoundText(group, name))])
      && (!found ==> EntryMessages(severity, entry, nodeContext, archives) == [])
  {
  }

  /** The configuration error of an entry that is malformed, and nothing for one that is not. */
  function ConfigErrorCheck(severity: Severity): (check: string -> seq<ValidationMessage>)
  {
    entry => if |Split(entry, ':')| == 2 then [] else [ValidationMessage(severity, ConfigErrorText(entry))]
  }

  /** An archive that cannot be opened or is no content package adds no message: only the configuration errors remain, in order. */
  lemma NoContentPackageOnlyConfigErrors(severity: Severity, entries: seq<string>, nodeContext: NodeContext, archives: Archives)
    requires IsSubPackage(nodeContext.nodePath)
    requires !archives(nodeContext.basePath, nodeContext.filePath).ContentPackage?
    ensures PathMessages(severity, entries, nodeContext, archives) == FlatMap(ConfigErrorCheck(severity), entries)
  {
    FlatMapAgree(EntryCheck(severity, nodeContext, archives), ConfigErrorCheck(severity), entries);
  }

  /** A well-formed entry checked against an archive that yields no package leaves the earlier messages as they were. */
  lemma FailedOpenKeepsEarlierMessages(severity: Severity, entries: seq<string>, entry: string, nodeContext: NodeContext, archives: Archives)
    requires |Split(entry, ':')| == 2
    requires !archives(nodeContext.basePath, nodeContext.filePath).ContentPackage?
    ensures PathMessages(severity, entries + [entry], nodeContext, archives) == PathMessages(severity, entries, nodeContext, archives)
  {
    FlatMapSnoc(EntryCheck(severity, nodeContext, archives), entries, entry);
  }

  /** No configuration error reads like a violation. */
  lemma TextsDistinct(entry: string, group: string, name: string)
    ensures ConfigErrorText(entry) != BannedFoundText(group, name)
  {
    assert BannedFoundText(group, name) == BannedFoundPrefix + (group + NameLabel + name);
    assert ConfigErrorText(entry)[0] == ConfigErrorPrefix[0] == 'I';
    assert BannedFoundText(group, name)[0] == BannedFoundPrefix[0] == 'F';
  }

  /** Between colon-free group and name, the only colon is the one in the name label, six characters in. */
  lemma NameLabelOnlyColon(group: string, name: string)
    requires ':' !in group && ':' !in name
    ensures var t := group + NameLabel + name;
      t[|group| + 6] == ':' && forall i | 0 <= i < |t| && i != |group| + 6 :: t[i] != ':'
  {
    var t := group + NameLabel + name;
    assert NameLabel[6] == ':' && |NameLabel| == 8;
    forall i | 0 <= i < |t| && i != |group| + 6 ensures t[i] != ':' {
      if i < |group| {
        assert t[i] == group[i];
      } else if i < |group| + 8 {
        assert t[i] == NameLabel[i - |group|];
      } else {
        assert t[i] == name[i - |group| - 8];
      }
    }
  }

  /** A violation text names one group and name when one of the two pairs is colon-free, as parsed entries are. */
  lemma BannedFoundTextInjective(group1: string, name1: string, group2: string, name2: string)
    requires ':' !in group2 && ':' !in name2
    ensures BannedFoundText(group1, name1) == BannedFoundText(group2, name2) ==> group1 == group2 && name1 == name2
  {
    if BannedFoundText(group1, name1) == BannedFoundText(group2, name2) {
      var t1 := group1 + NameLabel + name1;
      var t2 := group2 + NameLabel + name2;
      assert t1 == BannedFoundText(group1, name1)[|BannedFoundPrefix|..];
      assert t2 == BannedFoundText(group2, name2)[|BannedFoundPrefix|..];
      assert t1[|group1| + 6] == NameLabel[6] == ':';
      NameLabelOnlyColon(group2, name2);
      assert |group1| == |group2|;
      assert group1 == t1[..|group1|] && group2 == t2[..|group2|];
      assert name1 == t1[|group1| + 8..] && name2 == t2[|group2| + 8..];
    }
  }

  /**
    The violation for `group` and `name` is reported, at the configured
    severity, exactly when the node is a `.zip`, the archive there is a
    content package declaring that group and name, and some configured
    entry parses to that pair.
   */
  lemma ViolationReportedIff(severity: Severity, entries: seq<string>, nodeContext: NodeContext, archives: Archives,
                             reported: Severity, group: string, name: string)
    ensures var archive := archives(nodeContext.basePath, nodeContext.filePath);
      ValidationMessage(reported, BannedFoundText(group, name)) in PathMessages(severity, entries, nodeContext, archives)
      <==>
      && reported == severity
      && IsSubPackage(nodeContext.nodePath)
      && archive.ContentPackage? && archive.id.group == group && archive.id.name == name
      && exists i | 0 <= i < |entries| :: ParseEntry(entries[i]) == Some(BannedEntry(group, name))
  {
    var m := ValidationMessage(reported, BannedFoundText(group, name));
    FlatMapMember(EntryCheck(severity, nodeContext, archives), entries, m);
    if m in PathMessages(severity, entries, nodeContext, archives) {
      var i :| 0 <= i < |entries| && m in EntryMessages(severity, entries[i], nodeContext, archives);
      match ParseEntry(entries[i])
      case None =>
        TextsDistinct(entries[i], group, name);
      case Some(banned) =>
        BannedFoundTextInjective(group, name, banned.group, banned.name);
    }
  }

  /** The messages, counted with multiplicity, do not depend on the order in which the configured set is walked. */
  lemma OrderIndependent(severity: Severity, entries: seq<string>, reordered: seq<string>, nodeContext: NodeContext, archives: Archives)
    requires multiset(entries) == multiset(reordered)
    ensures multiset(PathMessages(severity, entries, nodeContext, archives))
         == multiset(PathMessages(severity, reordered, nodeContext, archives))
  {
    FlatMapPermutation(EntryCheck(severity, nodeContext, archives), entries, reordered);
  }

  /** A well-formed entry alone in the configuration, checked against the package it bans, is reported once. */
  lemma SingleBannedEntryReported(severity: Severity, group: string, name: string, nodeContext: NodeContext, archives: Archives, version: string)
    requires ':' !in group && ':' !in name && name != ""
    requires IsSubPackage(nodeContext.nodePath)
    requires archives(nodeContext.basePath, nodeContext.filePath) == ContentPackage(PackageId(group, name, version))
    ensures PathMessages(severity, [group + ":" + name], nodeContext, archives)
         == [ValidationMessage(severity, BannedFoundText(group, name))]
  {
    var entry := group + ":" + name;
    assert ParseEntry(entry) == Some(BannedEntry(group, name)) by {
      assert entry == group + ":" + name + Repeat(':', 0);
      ParseEntryShape(entry, group, name);
    }
    var check := EntryCheck(severity, nodeContext, archives);
    assert check(entry) == [ValidationMessage(severity, BannedFoundText(group, name))];
    FlatMapSnoc(check, [], entry);
    assert [] + [entry] == [entry];
  }

  /** An entry without a colon alone in the configuration is reported as a configuration error, whatever the archive holds. */
  lemma SingleMalformedEntryReported(severity: Severity, entry: string, nodeContext: NodeContext, archives: Archives)
    requires ':' !in entry
    requires IsSubPackage(nodeContext.nodePath)
    ensures PathMessages(severity, [entry], nodeContext, archives)
         == [ValidationMessage(severity, ConfigErrorText(entry))]
  {
    assert Split(entry, ':') == [entry];
    FlatMapSnoc(EntryCheck(severity, nodeContext, archives), [], entry);
    assert [] + [entry] == [entry];
  }

  const TestGroup: string := "org.apache.jackrabbit.filevault"
  const TestName: string := "package-plugin-test-pkg"
  const TestEntryPath: string := "/apps/packages/content/install/content-pkg.zip"

  lemma TestEntryPathIsSubPackage()
    ensures IsSubPackage(TestEntryPath)
  {
    assert TestEntryPath == "/apps/packages/content/install/content-pkg" + ".zip";
  }

  lemma TestGroupColonFree()
    ensures ':' !in TestGroup
  {
    var head, tail: string := "org.apache", "jackrabbit.filevault";
    assert ':' !in head && ':' !in tail;
    assert TestGroup == head + ['.'] + tail;
  }

  lemma TestNameColonFree()
    ensures ':' !in TestName && TestName != ""
  {
    var head, tail: string := "package-plugin", "test-pkg";
    assert ':' !in head && ':' !in tail;
    assert TestName == head + ['-'] + tail;
  }

  /** The embedded test package banned by its own group and name is reported once, at the configured severity. */
  lemma BannedSubPackageScenario(basePath: string, version: string, archives: Archives)
    requires archives(basePath, TestEntryPath[1..]) == ContentPackage(PackageId(TestGroup, TestName, version))
    ensures PathMessages(Error, [TestGroup + ":" + TestName], NodeContext(TestEntryPath, TestEntryPath[1..], basePath), archives)
         == [ValidationMessage(Error, BannedFoundText(TestGroup, TestName))]
  {
    TestEntryPathIsSubPackage();
    TestGroupColonFree();
    TestNameColonFree();
    SingleBannedEntryReported(Error, TestGroup, TestName, NodeContext(TestEntryPath, TestEntryPath[1..], basePath), archives, version);
  }

  /** An entry without a colon is reported as a configuration error, whatever the archive holds. */
  lemma IncorrectConfigurationScenario(basePath: string, archives: Archives)
    ensures PathMessages(Error, ["wrong-config"], NodeContext(TestEntryPath, TestEntryPath[1..], basePath), archives)
         == [ValidationMessage(Error, ConfigErrorText("wrong-config"))]
  {
    TestEntryPathIsSubPackage();
    SplitWithoutSeparator();
    SingleMalformedEntryReported(Error, "wrong-config", NodeContext(TestEntryPath, TestEntryPath[1..], basePath), archives);
  }
}
