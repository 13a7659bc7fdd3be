/** The broker client: it submits local files to the broker, one Enqueue frame
    per file, over a single stream, and keeps the set of paths it has submitted.

    The filesystem is given to Send as a map from path to contents (a path
    that is not a key does not exist), the outcome of reading the file as an
    optional error, and the outcome of the stream write as a flag.
 */
module Client {
  import opened Frame

  /** The kinds of I/O error the client reports. */
  datatype ErrorKind = NotFound | PermissionDenied | Other

  datatype IoError = IoError(kind: ErrorKind, message: string)

  /** What a submission returns: nothing on success, or the error. */
  datatype IoResult = Ok | Err(error: IoError)

  const FileNotFound := IoError(NotFound, "file not found")
  const FileEmpty := IoError(Other, "file is empty")
  const FailedToSend := IoError(Other, "failed to send")

  /** The Enqueue request built for a file's contents. */
  function EnqueueOf(file: seq<byte>): (m: RequestMessage)
    ensures m.command == Enqueue && m.payload == file
    ensures m.payloadSize == |file| && SizeMatches(m)
  {
    RequestMessage(Enqueue, |file|, file)
  }

  class BrokerClient {
    /** The paths submitted so far (membership only). */
    var files: set<string>
    /** Every byte written to the stream so far, in order. */
    var wire: seq<byte>

    /** The requests whose frames make up the wire, and the path of each. */
    ghost var sent: seq<RequestMessage>
    ghost var sentPaths: seq<string>

    /** The stream holds whole Enqueue frames of non-empty files whose size
        fields match their payloads, each for a path in the registry. */
    ghost predicate Valid()
      reads this
    {
      |sentPaths| == |sent| &&
      wire == Frames(sent) &&
      (forall i :: 0 <= i < |sent| ==>
         sent[i].command == Enqueue && SizeMatches(sent[i]) && sent[i].payload != []) &&
      (forall i :: 0 <= i < |sentPaths| ==> sentPaths[i] in files)
    }

    /** A client over a freshly connected stream: nothing submitted, nothing
        written. */
    constructor ()
      ensures Valid()
      ensures files == {} && wire == [] && sent == [] && sentPaths == []
    {
      files := {};
      wire := [];
      sent := [];
      sentPaths := [];
    }

    /** Submits the file at `path`: it must exist, be readable and be
        non-empty; the path is then registered and its Enqueue frame written
        in one write. A failed write is reported but the registration stays. */
    method Send(path: string, fs: map<string, seq<byte>>, readFailure: Option<IoError>, writeOk: bool)
      returns (r: IoResult)
      requires Valid()
      modifies this
      ensures Valid()
      ensures r == Ok <==> path in fs && readFailure.None? && fs[path] != [] && writeOk
      ensures path !in fs ==>
                r == Err(FileNotFound) &&
                files == old(files) && wire == old(wire) && sent == old(sent) && sentPaths == old(sentPaths)
      ensures path in fs && readFailure.Some? ==>
                r == Err(readFailure.value) &&
                files == old(files) && wire == old(wire) && sent == old(sent) && sentPaths == old(sentPaths)
      ensures path in fs && readFailure.None? && fs[path] == [] ==>
                r == Err(FileEmpty) &&
                files == old(files) && wire == old(wire) && sent == old(sent) && sentPaths == old(sentPaths)
      ensures path in fs && readFailure.None? && fs[path] != [] ==>
                files == old(files) + {path}
      ensures path in fs && readFailure.None? && fs[path] != [] && writeOk ==>
                wire == old(wire) + AsBytes(EnqueueOf(fs[path])) &&
                sent == old(sent) + [EnqueueOf(fs[path])] && sentPaths == old(sentPaths) + [path]
      ensures path in fs && readFailure.None? && fs[path] != [] && !writeOk ==>
                r == Err(FailedToSend) && wire == old(wire) && sent == old(sent) && sentPaths == old(sentPaths)
    {
      if path in fs {
        if readFailure.Some? {
          return Err(readFailure.value);
        }
        var file := fs[path];
        if file != [] {
          files := files + {path};
          var message := EnqueueOf(file);
          if !writeOk {
            return Err(FailedToSend);
          }
          FramesAppend(sent, [message]);
          wire := wire + AsBytes(message);
          sent := sent + [message];
          sentPaths := sentPaths + [path];
          return Ok;
        }
        return Err(FileEmpty);
      }
      return Err(FileNotFound);
    }

    /** While every submitted file is shorter than 256 bytes, the stream
        splits back into exactly the submitted requests, in order. */
    lemma WireSplitsIntoSent()
      requires Valid()
      requires forall i :: 0 <= i < |sent| ==> |sent[i].payload| < 256
      ensures ReadFrames(wire) == Some(sent)
    {
      ReadFramesOfFrames(sent);
    }
  }

  /** Every frame on the wire was sent for a path that is in the registry,
      and is the Enqueue frame of a non-empty payload. */
  lemma WireFramesRegistered(c: BrokerClient, i: nat)
    requires c.Valid()
    requires i < |c.sent|
    ensures i < |c.sentPaths| && c.sentPaths[i] in c.files
    ensures c.sent[i].command == Enqueue && c.sent[i].payload != []
    ensures c.wire == Frames(c.sent[..i]) + AsBytes(c.sent[i]) + Frames(c.sent[i + 1..])
  {
    assert c.sent == c.sent[..i] + [c.sent[i]] + c.sent[i + 1..];
    FramesAppend(c.sent[..i] + [c.sent[i]], c.sent[i + 1..]);
    FramesAppend(c.sent[..i], [c.sent[i]]);
  }

  /** Submitting the same non-empty file twice, with both writes succeeding,
      registers its path once and writes its frame twice. */
  method SendSamePathTwice(c: BrokerClient, path: string, fs: map<string, seq<byte>>)
    returns (r1: IoResult, r2: IoResult)
    requires c.Valid()
    requires path in fs && fs[path] != []
    modifies c
    ensures c.Valid()
    ensures r1 == Ok && r2 == Ok
    ensures c.files == old(c.files) + {path}
    ensures c.wire == old(c.wire) + AsBytes(EnqueueOf(fs[path])) + AsBytes(EnqueueOf(fs[path]))
  {
    r1 := c.Send(path, fs, None, true);
    r2 := c.Send(path, fs, None, true);
  }
}
