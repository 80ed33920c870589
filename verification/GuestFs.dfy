/** The filesystem object, with its working directory, updated in place (src/fs.rs:485-490, 639-766, 815-1243). */
module GuestFs {
  import opened Prelude
  import P = Paths
  import opened FileSystem
  import Listing

  datatype Status<+V> = Good(value: V) | Failed | Panicked(why: Why)

  /** The components of an absolute path that `change_working_directory` could have stored. */
  ghost predicate IsWorkingDirectory(s: string) {
    s == "" || exists cs: seq<string> :: P.Canonical(cs) && s == P.Print(cs)
  }

  class GuestFs {
    var root: Node
    var workingDirectory: string
    var host: Host             // the host's filesystem, as far as it concerns us

    ghost function View(): Fs
      reads this
    {
      Fs(root, host)
    }

    /** What the specification prescribes for components, applied to a path in the current directory. */
    ghost predicate Follows<V>(resolved: Option<seq<string>>, spec: Outcome<V>, r: Status<V>)
      reads this
    {
      if resolved.None? then r == Panicked(RelativeToNothing)
      else
        match spec
        case Ok(fs, v) => r == Good(v) && View() == fs
        case Refused(fs) => r == Failed && View() == fs
        case Panic(why) => r == Panicked(why)
    }

    // -------------------------------------------------------------- lookups

    method LookupNodeInner(components: seq<string>) returns (r: Option<Node>)
      ensures r == At(root, components)
    {
      var node := root;
      for k := 0 to |components|
        invariant At(root, components) == At(node, components[k..])
      {
        var next := Child(node, components[k]);
        if next.None? { return None; }
        node := next.value;
      }
      return Some(node);
    }

    method Resolve(path: string) returns (r: Option<seq<string>>)
      ensures r == P.Resolve(path, Some(workingDirectory))
    {
      r := P.ResolvePath(path, Some(workingDirectory));
    }

    /** The directory a path's last component is in, if it is one; `None` also for the root itself. */
    method ParentDir(components: seq<string>) returns (r: Option<Node>)
      ensures if components == [] then r == None else r == At(root, Parent(components))
    {
      if components == [] { return None; }
      r := LookupNodeInner(Parent(components));
    }

    method HostPathFor(path: string) returns (r: Status<Option<HostPath>>)
      ensures match P.Resolve(path, Some(workingDirectory))
              case None => r == Panicked(RelativeToNothing)
              case Some(cs) => r == Good(FileSystem.HostPathFor(View(), cs))
    {
      var cs := Resolve(path);
      if cs.None? { return Panicked(RelativeToNothing); }
      var node := LookupNodeInner(cs.value);
      if node.Some? {
        return Good(if node.value.File? && node.value.location.OnHost? then Some(node.value.location.path) else None);
      }
      var parent := ParentDir(cs.value);
      if parent.None? || parent.value.File? || parent.value.host.None? { return Good(None); }
      return Good(Some(parent.value.host.value + [Name(cs.value)]));
    }

    // -------------------------------------------------------------- the working directory

    /**
     Moves to a directory; the new working directory is the path written canonically, so that it
     resolves to the same place for ever.
     */
    method ChangeWorkingDirectory(path: string) returns (r: Status<()>)
      requires IsWorkingDirectory(workingDirectory)
      modifies `workingDirectory
      ensures IsWorkingDirectory(workingDirectory)
      ensures match P.Resolve(path, Some(old(workingDirectory)))
              case None => r == Panicked(RelativeToNothing) && workingDirectory == old(workingDirectory)
              case Some(cs) =>
                if HasDir(root, cs) then
                  r == Good(()) && workingDirectory == P.Print(cs) && P.Resolve(workingDirectory, None) == Some(cs)
                else r == Failed && workingDirectory == old(workingDirectory)
    {
      var resolved := Resolve(path);
      P.ResolvedIsCanonical(path, Some(workingDirectory));
      if resolved.None? { return Panicked(RelativeToNothing); }
      var cs := resolved.value;
      var node := LookupNodeInner(cs);
      if node.None? || node.value.File? { return Failed; }
      var newPath := "";
      for k := 0 to |cs|
        invariant newPath == P.Slashed(cs[..k])
      {
        assert cs[..k + 1][..k] == cs[..k];
        newPath := newPath + "/" + cs[k];
      }
      assert cs[..|cs|] == cs;
      if cs == [] { newPath := "/"; }
      P.PrintThenResolve(cs, None);
      workingDirectory := newPath;
      return Good(());
    }

    // -------------------------------------------------------------- opening, creating, removing, renaming

    method OpenWithOptions(path: string, o: Options) returns (r: Status<Opened>)
      modifies `root, `host
      ensures var cs := P.Resolve(path, Some(workingDirectory));
              if (o.truncate || o.create) && !o.write && !o.append then r == Panicked(BadOptions)
              else Follows(cs, if cs.Some? then FileSystem.OpenWithOptions(old(View()), cs.value, o)
                else Panic(RelativeToNothing), r)
    {
      if (o.truncate || o.create) && !o.write && !o.append { return Panicked(BadOptions); }
      var resolved := Resolve(path);
      if resolved.None? { return Panicked(RelativeToNothing); }
      r := OpenResolved(resolved.value, o);
    }

    method OpenResolved(cs: seq<string>, o: Options) returns (r: Status<Opened>)
      requires o.truncate || o.create ==> o.write || o.append
      modifies `root, `host
      ensures Follows(Some(cs), FileSystem.OpenWithOptions(old(View()), cs, o), r)
    {
      var parent := ParentDir(cs);
      if parent.None? || parent.value.File? { return Failed; }
      var children, dirHostPath, newFilename := parent.value.children, parent.value.host, Name(cs);
      if newFilename in children {
        match children[newFilename] {
          case File(location, writeable) =>
            if !writeable && (o.append || o.write) { return Failed; }
            if location.OnHost? {
              return if Sensible(o) && IsHostFile(host, location.path) then Good(TheFile(location))
                else Panicked(HostError);
            }
            if writeable || o.append || o.write { return Panicked(ReadonlyContent); }
            return Good(TheFile(location));
          case Dir(_, _) => return if o.write then Failed else Good(TheDirectory);
        }
      }
      if !o.create || dirHostPath.None? { return Failed; }
      if '/' in newFilename { return Panicked(Separator); }
      var hostPath := dirHostPath.value + [newFilename];
      if !Sensible(o) || !HostCanCreate(host, hostPath) { return Panicked(HostError); }
      host := host[hostPath := HostFile];
      root := SetEntry(root, Parent(cs), newFilename, Some(File(OnHost(hostPath), true)));
      return Good(TheFile(OnHost(hostPath)));
    }

    method Remove(path: string) returns (r: Status<()>)
      modifies `root, `host
      ensures var cs := P.Resolve(path, Some(workingDirectory));
              Follows(cs, if cs.Some? then FileSystem.Remove(old(View()), cs.value) else Panic(RelativeToNothing), r)
    {
      var resolved := Resolve(path);
      if resolved.None? { return Panicked(RelativeToNothing); }
      var cs := resolved.value;
      var parent := ParentDir(cs);
      if parent.None? || parent.value.File? || parent.value.host.None? { return Failed; }
      var children, name := parent.value.children, Name(cs);
      if name !in children { return Failed; }
      match children[name] {
        case File(location, writeable) =>
          if !writeable { return Failed; }
          if !location.OnHost? { return Panicked(ReadonlyContent); }
          if location.path !in host || host[location.path] != HostFile { return Panicked(HostError); }
          host := host - {location.path};
        case Dir(inner, writeable) =>
          if inner != map[] || writeable.None? { return Failed; }
          var p := writeable.value;
          if p !in host || host[p] != HostDir || !HostEmpty(host, p) { return Panicked(HostError); }
          host := host - {p};
      }
      root := SetEntry(root, Parent(cs), name, None);
      return Good(());
    }

    method CreateDir(path: string) returns (r: Status<Option<FsError>>)
      modifies `root, `host
      ensures var cs := P.Resolve(path, Some(workingDirectory));
              Follows(cs, if cs.Some? then FileSystem.CreateDir(old(View()), cs.value) else Panic(RelativeToNothing), r)
    {
      var resolved := Resolve(path);
      if resolved.None? { return Panicked(RelativeToNothing); }
      var cs := resolved.value;
      var parent := ParentDir(cs);
      if parent.None? { return Good(Some(NonexistentParentDir)); }
      if parent.value.File? { return Good(Some(InvalidParentDir)); }
      var children, dirHostPath, newDirName := parent.value.children, parent.value.host, Name(cs);
      if newDirName in children { return Good(Some(AlreadyExist)); }
      if dirHostPath.None? { return Good(Some(ReadonlyParentDir)); }
      if '/' in newDirName { return Panicked(Separator); }
      var hostPath := dirHostPath.value + [newDirName];
      if hostPath in host || !HostCanCreate(host, hostPath) { return Panicked(HostError); }
      host := host[hostPath := HostDir];
      root := SetEntry(root, Parent(cs), newDirName, Some(Dir(map[], Some(hostPath))));
      return Good(None);
    }

    /** Creates the directories of an absolute path one by one, writing each prefix out as a path again. */
    method CreateDirAll(path: string) returns (r: Status<Option<FsError>>)
      requires P.Absolute(path)
      modifies `root, `host
      ensures var cs := P.Resolve(path, None);
              cs.Some? && Follows(cs, FileSystem.CreateDirAll(old(View()), cs.value, 0), r)
    {
      var resolved := P.ResolvePath(path, None);
      P.ResolvedIsCanonical(path, None);
      var components := resolved.value;
      var soFar := "";
      for k := 0 to |components|
        invariant soFar == P.Slashed(components[..k])
        invariant FileSystem.CreateDirAll(View(), components, k) == FileSystem.CreateDirAll(old(View()), components, 0)
      {
        var prefix := components[..k + 1];
        assert prefix[..k] == components[..k];
        soFar := soFar + "/" + components[k];
        P.PrintThenResolve(prefix, Some(workingDirectory));
        var res := CreateDir(soFar);
        if res.Failed? || res.Panicked? { return res; }
        if res.value.Some? && res.value != Some(AlreadyExist) { return res; }
      }
      return Good(None);
    }

    /** `hostOk` is whether the host's own rename succeeds. */
    method Rename(from: string, to: string, hostOk: bool) returns (r: Status<()>)
      modifies `root, `host
      ensures var f, t := P.Resolve(from, Some(workingDirectory)), P.Resolve(to, Some(workingDirectory));
              if f.None? then r == Panicked(RelativeToNothing)
              else if t.Some? then Follows(t, FileSystem.Rename(old(View()), f.value, t.value, hostOk), r)
              else r != Good(())
    {
      var f := Resolve(from);
      if f.None? { return Panicked(RelativeToNothing); }
      var fromNode := LookupNodeInner(f.value);
      if fromNode.None? { return Failed; }
      if fromNode.value.Dir? { return Panicked(NotImplemented); }
      if !fromNode.value.location.OnHost? { return Failed; }
      if !fromNode.value.writeable { return Panicked(ReadonlyContent); }
      var fromHostPath := fromNode.value.location.path;

      var t := Resolve(to);
      if t.None? { return Panicked(RelativeToNothing); }
      var toNode := LookupNodeInner(t.value);
      if toNode.None? {
        var created := OpenResolved(t.value, CREATING);
        if created.Failed? { return Failed; }
        if created.Panicked? { return Panicked(created.why); }
        toNode := LookupNodeInner(t.value);
        if toNode.None? { return Panicked(HostError); }
      }
      if toNode.value.Dir? || !toNode.value.location.OnHost? { return Failed; }
      if !toNode.value.writeable { return Panicked(ReadonlyContent); }
      var toHostPath := toNode.value.location.path;
      if !hostOk || fromHostPath !in host || host[fromHostPath] != HostFile || !HostCanCreate(host, toHostPath) {
        return Failed;
      }
      var parent := ParentDir(f.value);
      if parent.None? || parent.value.File? { return Panicked(NotImplemented); }
      host := (host - {fromHostPath})[toHostPath := HostFile];
      root := SetEntry(root, Parent(f.value), Name(f.value), None);
      return Good(());
    }

    // -------------------------------------------------------------- listing

    /** `enumerate_recursive`: everything below the directory, each place exactly once. */
    method EnumerateRecursive(path: string) returns (r: Status<seq<string>>, ghost places: seq<seq<string>>)
      ensures match P.Resolve(path, Some(workingDirectory))
              case None => r == Panicked(RelativeToNothing)
              case Some(cs) =>
                if !HasDir(root, cs) then r == Failed
                else
                  && r.Good? && |r.value| == |places| && Listing.Distinct(places)
                  && (forall ds: seq<string> :: ds in places <==> ds != [] && At(root, cs + ds).Some?)
                  && (forall k :: 0 <= k < |places| ==> r.value[k] == Listing.Joined(places[k]))
    {
      places := [];
      var resolved := Resolve(path);
      if resolved.None? { return Panicked(RelativeToNothing), places; }
      var node := LookupNodeInner(resolved.value);
      if node.None? || node.value.File? { return Failed, places; }
      var paths;
      paths, places := Listing.ListBelow(node.value);
      forall ds: seq<string> ensures At(root, resolved.value + ds) == At(node.value, ds) {
        Listing.AtSplit(root, resolved.value, ds);
      }
      return Good(paths), places;
    }
  }
}
