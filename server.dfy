/**
 A share node: its local directory, its set of known peers, the capability
 secret that guards `fetch`, and the methods it serves over XML-RPC.
 */
module Server {
  import opened Paths
  import opened Protocol

  /** The files a node reads and writes, keyed by their resolved path; `cwd`
      is the process's working directory, against which relative paths are
      resolved. */
  class Disk {
    var files: map<seq<string>, string>
    const cwd: Path

    constructor (cwd: Path, files: map<seq<string>, string>)
      ensures this.cwd == cwd && this.files == files
    {
      this.cwd := cwd;
      this.files := files;
    }

    /** `isfile(name)`: a name ending in a separator, "." or ".." never
        names a regular file; any other name does when its resolved path is
        in the map. */
    predicate IsFile(name: string)
      reads this
    {
      !NamesDirectory(name) && Abspath(cwd, name).segments in files
    }

    /** `open(name).read()`. */
    function Read(name: string): string
      reads this
      requires IsFile(name)
    {
      files[Abspath(cwd, name).segments]
    }

    /** `open(name, 'w').write(content)`: creates or overwrites the file. */
    method Write(name: string, content: string)
      modifies this
      ensures files == old(files)[Abspath(cwd, name).segments := content]
    {
      files := files[Abspath(cwd, name).segments := content];
    }
  }

  class Node {
    const url: string
    const dirname: string
    const secret: string
    var known: set<string>
    const disk: Disk

    constructor (url: string, dirname: string, secret: string, disk: Disk)
      ensures this.url == url && this.dirname == dirname && this.secret == secret
      ensures this.disk == disk && known == {}
    {
      this.url := url;
      this.dirname := dirname;
      this.secret := secret;
      this.disk := disk;
      known := {};
    }

    /** `_handle`: the file named by the query, joined onto the node's
        directory. A missing file, or a query that can only name a directory,
        is unhandled (whatever its location); an existing file outside the
        directory is refused; otherwise its content is the answer. */
    function Handle(query: string): (r: Outcome<string>)
      reads disk
      ensures var dir, name := Abspath(disk.cwd, dirname), Abspath(disk.cwd, Join(dirname, query));
        (r.Unhandled? <==> NamesDirectory(query) || name.segments !in disk.files) &&
        (r.AccessDenied? <==> !NamesDirectory(query) && name.segments in disk.files && !Within(dir, name)) &&
        (r.Ok? ==> Within(dir, name) && r.value == disk.files[name.segments])
    {
      var name := Join(dirname, query);
      InsideMeansWithin(disk.cwd, dirname, name);
      JoinKeepsLastPiece(dirname, query);
      if !disk.IsFile(name) then Unhandled
      else if !Inside(disk.cwd, dirname, name) then AccessDenied
      else Ok(disk.Read(name))
    }

    /** `query`: answer locally when possible, otherwise flood the query to
        the peers, in the snapshot order `order`, through `net`. The ghost
        `calls` lists the remote calls issued. */
    method Query(query: string, history: seq<string>, order: seq<string>, net: Network)
      returns (r: Outcome<string>, ghost calls: seq<Call>)
      requires Enumerates(order, known)
      modifies this`known
      ensures Flooded(r, known, calls) == Respond(Handle(query), url, old(known), order, query, history, net)
    {
      r := Handle(query);
      calls := [];
      if r.Unhandled? {
        var forwarded := history + [url];
        if |forwarded| < MAX_HISTORY_LENGTH {
          r, calls := Broadcast(query, forwarded, order, net);
        }
      }
    }

    /** `_broadcast`: walk the snapshot `order` of the known peers, skipping
        those in the history, and return the first content a peer returns;
        a peer that fails with anything but UNHANDLED is removed from `known`. */
    method Broadcast(query: string, history: seq<string>, order: seq<string>, net: Network)
      returns (r: Outcome<string>, ghost calls: seq<Call>)
      requires Enumerates(order, known)
      modifies this`known
      ensures Flooded(r, known, calls) == Flood(order, old(known), query, history, net)
    {
      calls := [];
      var i := 0;
      while i < |order|
        invariant 0 <= i <= |order|
        invariant forall j :: i <= j < |order| ==> order[j] in known
        invariant var rest := Flood(order[i..], known, query, history, net);
          Flood(order, old(known), query, history, net) == Flooded(rest.result, rest.known, calls + rest.calls)
      {
        var other := order[i];
        FloodStep(order, i, known, query, history, net);
        if other in history {
          i := i + 1;
          continue;
        }
        var reply := net(other, query, history);
        if !reply.Returned? {
          FloodAdvance(order, i, known, query, history, net, calls, Flood(order, old(known), query, history, net));
          assert forall j :: i < j < |order| ==> order[j] != other;
        }
        calls := calls + [Call(other, query, history)];
        match reply {
          case Returned(content) =>
            r := Ok(content);
            return;
          case Fault(code) =>
            if code != UNHANDLED {
              // `known.remove(other)` cannot raise: each peer of the snapshot is visited once.
              assert other in known;
              known := known - {other};
            }
          case TransportError =>
            assert other in known;
            known := known - {other};
        }
        i := i + 1;
      }
      r := Unhandled;
    }

    /** `hello`: remember a peer; always answers 0. */
    method Hello(other: string) returns (r: int)
      modifies this`known
      ensures known == old(known) + {other} && r == 0
    {
      known := known + {other};
      r := 0;
    }

    /** `fetch`: with the right secret, query from an empty history and write
        the answer into the file the query names under the node's directory. */
    method Fetch(query: string, secret: string, order: seq<string>, net: Network)
      returns (r: Outcome<int>, ghost calls: seq<Call>)
      requires Enumerates(order, known)
      modifies this`known, disk
      ensures secret != this.secret ==>
        r == AccessDenied && known == old(known) && disk.files == old(disk.files) && calls == []
      ensures secret == this.secret ==>
        var o := Respond(old(Handle(query)), url, old(known), order, query, [], net);
        known == o.known && calls == o.calls &&
        if o.result.Ok? then
          r == Ok(0) &&
          disk.files == old(disk.files)[Abspath(disk.cwd, Join(dirname, query)).segments := o.result.value]
        else
          r == o.result.Reraise() && disk.files == old(disk.files)
    {
      if secret != this.secret {
        return AccessDenied, [];
      }
      var result;
      result, calls := Query(query, [], order, net);
      if !result.Ok? {
        return result.Reraise(), calls;
      }
      disk.Write(Join(dirname, query), result.value);
      r := Ok(0);
    }
  }

  /** A plain file name is served from the node's directory, whatever form
      the directory was given in, when the file is there, and is unhandled
      otherwise. */
  lemma PlainNameServed(n: Node, name: string)
    requires IsSegment(name)
    ensures var file := Abspath(n.disk.cwd, n.dirname).segments + [name];
      n.Handle(name) == if file in n.disk.files then Ok(n.disk.files[file]) else Unhandled
  {
    JoinName(n.disk.cwd, n.dirname, name);
    SplitPiece(name);
  }

  /** A name that climbs out of the node's directory with ".." names the
      directory's sibling: it is refused when that file exists and unhandled
      otherwise. Only a node whose directory is a root serves it. */
  lemma ParentRefused(n: Node, name: string)
    requires IsSegment(name)
    ensures var d := Abspath(n.disk.cwd, n.dirname);
      var file := (if d.segments == [] then [] else d.segments[..|d.segments| - 1]) + [name];
      n.Handle("../" + name) ==
        if file !in n.disk.files then Unhandled
        else if d.segments == [] then Ok(n.disk.files[file])
        else AccessDenied
  {
    ParentEscapes(n.disk.cwd, n.dirname, name);
    SplitParentName(name);
  }

  /** Two different relative directories seen from the working directory
      `cwd`, and the file `name` in each of them. */
  lemma TwoDirectories(cwd: Path, aDir: string, bDir: string, name: string)
    requires Canonical(cwd.segments) && IsSegment(aDir) && IsSegment(bDir) && aDir != bDir && IsSegment(name)
    ensures var aFile, bFile := Abspath(cwd, Join(aDir, name)).segments, Abspath(cwd, Join(bDir, name)).segments;
      aFile != bFile && Abspath(cwd, aDir).segments + [name] == aFile && Abspath(cwd, bDir).segments + [name] == bFile
  {
    NormalisedIsFixed(cwd, cwd);
    JoinName(cwd, Text(cwd), aDir);
    JoinName(cwd, Text(cwd), bDir);
    assert aDir[0] in aDir && bDir[0] in bDir;
    JoinName(cwd, aDir, name);
    JoinName(cwd, bDir, name);
    var n := |cwd.segments|;
    assert (cwd.segments + [aDir] + [name])[n] != (cwd.segments + [bDir] + [name])[n];
  }

  /** Two nodes on one machine, started from the working directory `cwd`
      with the relative directories `aDir` and `bDir`: B knows A only through
      `hello`, and A holds the file `name`, which B then fetches. */
  method TwoNodes(cwd: Path, aDir: string, bDir: string, name: string, content: string)
    requires Canonical(cwd.segments) && IsSegment(aDir) && IsSegment(bDir) && aDir != bDir && IsSegment(name)
  {
    var aFile, bFile := Abspath(cwd, Join(aDir, name)).segments, Abspath(cwd, Join(bDir, name)).segments;
    TwoDirectories(cwd, aDir, bDir, name);

    var disk := new Disk(cwd, map[aFile := content]);
    var a := new Node("http://a:4242", aDir, "sa", disk);
    var b := new Node("http://b:4243", bDir, "sb", disk);
    var ack := b.Hello(a.url);
    assert b.known == {a.url};
    assert a.Handle(name) == Ok(content) by { PlainNameServed(a, name); }
    assert b.Handle(name) == Unhandled by { PlainNameServed(b, name); }
    FetchFromPeer(a, b, name, content);
    assert disk.files == map[aFile := content, bFile := content];
  }

  /** B knows only A, which serves `name`, and B does not have it: a fetch
      with the wrong secret touches nothing, and a fetch with B's secret asks
      A once, with B's url as the history, and stores A's content. */
  method FetchFromPeer(a: Node, b: Node, name: string, content: string)
    requires a.url != b.url && b.known == {a.url}
    requires a.Handle(name) == Ok(content) && b.Handle(name) == Unhandled
    modifies b`known, b.disk
    ensures b.known == {a.url}
    ensures b.disk.files == old(b.disk.files)[Abspath(b.disk.cwd, Join(b.dirname, name)).segments := content]
  {
    var fromA := AsReply(a.Handle(name));
    var net: Network := (peer, q, h) =>
      if peer == a.url && q == name then fromA else TransportError;

    var denied, none := b.Fetch(name, b.secret + "?", [a.url], net);
    assert denied == AccessDenied && b.disk.files == old(b.disk.files);

    var call := Call(a.url, name, [b.url]);
    assert Respond(Unhandled, b.url, {a.url}, [a.url], name, [], net) == Flooded(Ok(content), {a.url}, [call]) by {
      assert [] + [b.url] == [b.url] && a.url !in [b.url];
      assert net(a.url, name, [b.url]) == Returned(content);
    }
    var ok, calls := b.Fetch(name, b.secret, [a.url], net);
    assert ok == Ok(0) && calls == [call];
  }
}
