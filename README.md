# Query-flooding share node, modelled in Dafny

This project models the core of `xml_rpc_share/server.py`. That file defines a peer-to-peer file-sharing node served over XML-RPC.

Each `Node` has:
- a URL, which is its identity;
- a local directory;
- a capability secret;
- a set `known` of peer URLs.

The node's operations:
- `query(name, history)` answers from the local directory when it can.
- Otherwise `query` extends the hop history with the node's own URL and floods the query to its known peers (`_broadcast`). The first content returned wins. Peers already in the history are skipped. A peer that fails with anything other than the UNHANDLED fault (code 100) is evicted. The history is bounded by `MAX_HISTORY_LENGTH = 6`.
- `_handle` reads a file, guarded by the sandbox check `inside`.
- `hello` adds a peer.
- `fetch` checks the secret, queries, and writes the answer into the local directory.

The model has three modules:

- `Paths` (`paths.dfy`) holds the parts of POSIX path handling the node relies on, at the level of strings:
  - `str.split('/')` and `'/'.join`;
  - `posixpath.join`;
  - `normpath`/`abspath`, including the POSIX rule that keeps a leading `//`, with the working directory as a parameter;
  - `inside` itself.

  Its main lemma proves that the string test `name.startswith(join(dir, ''))` means segment-wise containment of the normalised paths.
- `Protocol` (`protocol.dfy`) holds the fault codes, the outcome datatypes and two specification functions on values:
  - `Flood` is `_broadcast`. It takes the snapshot order, the peer set, the query, the history and the replies of the peers.
  - `Respond` is `query`.

  It also holds the lemmas about both. A ghost trace of `Call`s records which peer was called, with which query and which history.
- `Server` (`server.dfy`) holds two classes:
  - `Disk` stands in for the file system. It is a map from resolved path to content, plus the working directory.
  - `Node` keeps the source's fields. `known` is a `set<string>` that `Hello` and `Broadcast` update in place.

  `Broadcast` is a `while` loop over the snapshot sequence, proved against `Flood`. `Query` and `Fetch` are proved against `Respond`. `TwoNodes` and `FetchFromPeer` form a small client. Two nodes are started with relative directories, as the client passes them. Node B learns of A through `hello`. A fetch with the wrong secret changes nothing, and a fetch with the right secret copies A's file into B's directory.

Remote calls (`ServerProxy(peer).query(query, history)`) are a parameter `net: Network`. It maps a peer URL, a query and a history to a `Reply`: `Returned(content)`, `Fault(code)` or `TransportError`.

Python leaves unspecified the order in which `self.known.copy()` is iterated. That order is a parameter `order`, required to list `known` once each.

Two behaviours of the code, stated precisely:
- `inside` treats a root directory as containing itself, because `join('/', '')` is `'/'`. The single-slash root `/` contains every path. The double-slash root `//` contains every path written with two leading slashes, itself included, but no single-slash path: `inside('//', '/a')` is false. Every other directory contains only paths strictly below it that have the same leading slashes. `Paths.Within` states exactly this. `InsideMeansWithin` proves that `inside` means `Within`, and `DirectoryInsideItself` proves that a directory is inside itself exactly when it is a root.
- `fetch` writes to `join(dirname, query)` with no containment check of its own. A node whose directory is not a root refuses a query `../x` whenever the file exists (`ParentRefused`). Only a peer whose directory is a root serves `../x` from its own files, because there `..` stays at the root. A peer whose directory is not a root, and whose own sibling file `x` is absent, gets UnhandledQuery from `_handle`. It then floods `../x` onward and relays whatever a root-directory peer returns. Whichever peer answers, `Fetch` writes the content to the file its postcondition names, `Abspath(cwd, Join(dirname, query))`. When the fetching node's directory is not a root, `ParentEscapes` shows that this file lies outside that directory.

## Model

| member | source | states |
|---|---|---|
| Paths.Split | xml_rpc_share/server.py:31-32 | the pieces `str.split('/')` gives are at least one and contain no separator (used by `abspath`) |
| Paths.SplitThenJoin | xml_rpc_share/server.py:31-32 | joining the pieces of a split with '/' gives back the original text, so normalisation sees every character |
| Paths.JoinThenSplit | xml_rpc_share/server.py:31-32 | splitting a '/'-join of separator-free pieces gives back those pieces |
| Paths.Join | xml_rpc_share/server.py:33 | `posixpath.join` of two paths; a function with no contract of its own, whose meaning is stated by `JoinResolves`, `JoinKeepsLastPiece`, `JoinName` and `ParentEscapes` |
| Paths.Resolve | xml_rpc_share/server.py:31-32 | resolving `.`, `..` and empty pieces (normpath's component loop) leaves only real segments |
| Paths.Abspath | xml_rpc_share/server.py:31-32 | `abspath` always yields a normalised path whose segments are real segments |
| Paths.NormalisedIsFixed | xml_rpc_share/server.py:31-32 | `abspath` is idempotent: the text of a normalised path normalises back to the same path |
| Paths.Inside | xml_rpc_share/server.py:27-33 | `inside` as written: `name.startswith(join(dir, ''))` on the two abspaths; a function with no contract of its own, whose meaning is stated by `InsideMeansWithin` |
| Paths.JoinResolves | xml_rpc_share/server.py:61 | `abspath(join(dir, q))` for a relative `q` and ANY directory (absolute or relative, normalised or not) keeps the leading slashes of `abspath(dir)` and resolves the pieces of `q` after its segments |
| Paths.JoinKeepsLastPiece | xml_rpc_share/server.py:61-62 | `join(dir, q)` ends with the last piece of `q`, so whether the joined name can only be a directory (it ends in a separator, `.` or `..`) depends on the query alone |
| Paths.InsideMeansWithin | xml_rpc_share/server.py:27-33 | `inside(dir, name)` holds exactly when normalised `name` lies strictly below normalised `dir` segment by segment, same leading slashes, or `dir` is a root |
| Paths.DirectoryInsideItself | xml_rpc_share/server.py:27-33 | a directory is inside itself exactly when it normalises to a root |
| Paths.SiblingNotInside | xml_rpc_share/server.py:27-33 | a sibling whose last segment textually extends the directory's (`root-other` next to `root`) is not inside, nor is anything below it |
| Paths.JoinName | xml_rpc_share/server.py:61 | joining a plain file name onto any directory, absolute or relative, names the path one segment below the directory's absolute path, which is within it |
| Paths.ParentEscapes | xml_rpc_share/server.py:61-63 | a name `../x` joined onto any directory resolves to the sibling `x` of the directory's absolute path (to `x` under the root when the directory is a root), and that path is within the directory exactly when the directory is a root |
| Protocol.AsReply | xml_rpc_share/server.py:9-24 | a node's answer crosses XML-RPC as the content, as fault 100 exactly for UnhandledQuery, or as fault 200 exactly for AccessDenied; of the three, only AccessDenied makes the caller evict the node |
| Protocol.Evicts | xml_rpc_share/server.py:72-78 | the replies after which `_broadcast` removes the peer: a fault whose code is not 100, or any other exception; a predicate with no contract of its own, used by `FloodEvictions` |
| Protocol.Flood | xml_rpc_share/server.py:66-79 | `_broadcast` on values (snapshot order, peer set, query, history, replies of the peers); a function with no contract of its own, whose meaning is stated by `FloodCalls`, `FloodFirstSuccess`, `FloodSucceedsIff` and `FloodEvictions`, and which `Node.Broadcast` is proved equal to |
| Protocol.Respond | xml_rpc_share/server.py:50-57 | `query` on values, given the answer of `_handle`; a function with no contract of its own, whose meaning is stated by `Forwarding`, `QueryFaults` and `HopLimit`, and which `Node.Query` is proved equal to |
| Protocol.FloodCalls | xml_rpc_share/server.py:66-71 | every remote call of a broadcast carries the query and the history it was given, and the peers called are a prefix of the snapshot order with the peers in the history removed, so no peer in the history is ever called |
| Protocol.FloodFirstSuccess | xml_rpc_share/server.py:66-79 | every called peer but the last returned no content; a successful broadcast returns the last called peer's content and calls no one after it; a failed broadcast is UnhandledQuery (never AccessDenied), after calling every candidate, none of which returned content |
| Protocol.FloodSucceedsIff | xml_rpc_share/server.py:66-79 | a broadcast returns content exactly when some peer of the snapshot outside the history returns content |
| Protocol.FloodEvictions | xml_rpc_share/server.py:72-78 | afterwards `known` is the old set minus exactly the called peers whose reply was a fault other than 100 or a transport error: no peer added, peers replying 100, skipped peers and peers after the first success untouched |
| Protocol.Forwarding | xml_rpc_share/server.py:50-57 | every call a query makes carries the incoming history extended by exactly the node's url, of length below 6, and goes to neither the node itself nor a node of the incoming history |
| Protocol.QueryFaults | xml_rpc_share/server.py:50-57 | a local answer (content or AccessDenied) is the result with no call and no change to `known`; a query ends in AccessDenied exactly when `_handle` does; content not found locally is the reply of the last peer called |
| Protocol.HopLimit | xml_rpc_share/server.py:54-57 | on a local miss with a history of 5 or more urls the query is UnhandledQuery with no call and `known` unchanged; every forwarded history is one longer than the incoming one and at most 5 long |
| Server.Disk.Write | xml_rpc_share/server.py:88-89 | writing creates or overwrites exactly the file at the resolved path and changes no other |
| Server.Disk.IsFile | xml_rpc_share/server.py:62 | `isfile(name)`: false for a name whose last piece is empty, `.` or `..`, otherwise whether the resolved path is a file; a predicate with no contract of its own, whose meaning reaches the node through `Node.Handle` |
| Server.Disk.Read | xml_rpc_share/server.py:64 | `open(name).read()`: the content stored at the resolved path; a function with no contract of its own, whose meaning reaches the node through `Node.Handle` |
| Server.Node.constructor | xml_rpc_share/server.py:44-48 | a new node has the given url, directory and secret and knows no peer |
| Server.Node.Handle | xml_rpc_share/server.py:59-64 | UnhandledQuery exactly when the query can only name a directory (its last piece is empty, `.` or `..`) or the joined path is not a file, whatever its location (checked before containment); AccessDenied exactly when it names a file outside the directory; otherwise the file's content, and the file is within the directory |
| Server.PlainNameServed | xml_rpc_share/server.py:59-64 | for any directory, absolute or relative, a plain file name is answered with the content of that file in the directory, or UnhandledQuery when it is absent |
| Server.ParentRefused | xml_rpc_share/server.py:59-64 | for any directory, a name `../x` names the directory's sibling `x`: UnhandledQuery when that file is absent, otherwise AccessDenied, unless the directory is a root, which serves it |
| Server.Node.Query | xml_rpc_share/server.py:50-57 | result, new `known` and the calls issued are those of `Respond` applied to `_handle`'s answer and the old `known` |
| Server.Node.Broadcast | xml_rpc_share/server.py:66-79 | result, new `known` and the calls issued are those of `Flood` on the snapshot and the old `known` (its loop also proves that each removed peer is present, so `known.remove` cannot fail) |
| Server.Node.Hello | xml_rpc_share/server.py:81-83 | `known` gains exactly the given url and the answer is 0; calling it again changes nothing |
| Server.Node.Fetch | xml_rpc_share/server.py:85-90 | wrong secret: AccessDenied, no call, `known` and the files unchanged; right secret: the query runs with an empty history, and on success the file `join(dirname, query)` is created or overwritten with the content and 0 is returned, otherwise the query's fault is returned and nothing is written |

## Left out

- `get_port`, `Node._start` and `main` (xml_rpc_share/server.py:36-40, 92-104) are left out. They are socket binding, server start-up and argv handling.
- The interactive client in xml_rpc_share/client.py is not part of this model. That covers its command loop, daemon thread and start-up delay, URL-file reading and random secret generation.
- The XML-RPC transport is replaced by the `net` parameter. The reply of a peer is fixed for the duration of one query, so a peer's own state changing in the middle of a flood is not modelled. A network of nodes calling each other recursively is not modelled either. The hop bound over a chain of nodes follows from `Forwarding` and `HopLimit`, applied at each hop, and is not proved as one lemma.
- Fault message texts are left out. So are values of other types that an XML-RPC caller could pass or return, since content, query and history are strings.
- The file system is a map from resolved paths to contents. `..` is resolved lexically, the way `abspath` does it, not through the real directory tree. A name that passes through a regular file (`a.txt/../b.txt`) is resolved lexically too, where the operating system fails with ENOTDIR. Symbolic links are not modelled. `open` never fails: writing into a missing directory, permissions, encodings and the newline translation of text mode (`open(name).read()` turns `\r\n` and `\r` into `\n`) are left out: `Disk.Read` returns the stored content unchanged. The working directory is a parameter of `Disk`.
- Concurrent inbound calls that change `known` during a flood are left out. The `KeyError` that `known.remove` could then raise is left out with them. Sequentially, each removal targets a present peer, and `Broadcast` proves it.
- Server.Node.Fetch: when a peer answers a query whose last piece is empty, `.` or `..`, the source's `open(join(dirname, query), 'w')` raises, because such a name can only be a directory. The model writes the content to the resolved path instead, because its outcomes carry no operating-system error. The node's own `_handle` never answers such a query (`Node.Handle`).
- `Server.Node.Query`, `Server.Node.Broadcast` and `Server.Node.Fetch` return the list of remote calls as a ghost value. That list is an observation of the model and not something the source returns.
