# Broker client: request frames and file submission

This project models the client side of a small file broker protocol
(`src/net/client.rs`). The client holds one stream to the broker. It submits
local files as Enqueue requests, one frame per file. It also records in a set
the paths it has submitted.

- `frame.dfy` (module `Frame`) covers the wire format. It holds the command
  tag (`Request`: Enqueue = 1, Dequeue = 2), the tag decoder `FromU8`, the
  request (`RequestMessage`) and its serialisation `AsBytes`:
  `[tag][payload size as one byte][payload]`.
  The size byte comes from a truncating cast, so it is the size modulo 256.
  The model keeps that exactly as the code writes it. Two ghost functions,
  `ReadFrame` and `ReadFrames`, read the layout back, one frame or a whole
  stream of frames. They are the reference the lemmas compare `AsBytes`
  against; the client itself has no decoder.
- `client.dfy` (module `Client`) covers submission. The class `BrokerClient`
  has the registry `files: set<string>` and `wire: seq<byte>`, the bytes
  written to the stream so far. Ghost fields record the requests the wire is
  made of. `Send` follows the source's checks in the source's order:
  - a missing path gives NotFound;
  - a failed read passes its error on;
  - an empty file gives "file is empty";
  - otherwise the path is registered and the frame is written in one write;
  - a failed write gives "failed to send" and keeps the registration.

The filesystem is a parameter of `Send`: a map from path to contents, where a
path that is not a key does not exist. The result of `std::fs::read` is an
optional error parameter, and the result of `write_all` is a boolean
parameter. The `Arc<Mutex<…>>` handles only share one set and one stream
between clones, so one object models them.

The length field is one byte (`payload_size as u8`), so sizes of 256 or more
wrap around; `OversizedFrameUnreadable` and `ZeroFile256Misread` show what
that does to a reader of the stream.

## Model

| member | source | states |
|---|---|---|
| `Frame.FromU8` | src/net/client.rs:25-31 | decoding succeeds exactly for bytes 1 and 2; the decoded command's tag is the input byte; any other byte is a failure (the source panics) |
| `Frame.FromU8Tag` | src/net/client.rs:20-31 | decoding the tag of either command gives that command back |
| `Frame.AsBytes` | src/net/client.rs:41-47 | a frame is 2 + payload-length bytes: byte 0 is the command tag, byte 1 is the size field mod 256, and the rest is the payload, in order |
| `Frame.AsBytesForgetsWraps` | src/net/client.rs:44 | size fields that differ by a multiple of 256 give identical frames |
| `Frame.ReadFrame` | src/net/client.rs:41-47 | whatever the layout reader accepts is a message whose size field matches its payload, and `AsBytes` of it is exactly the bytes it read |
| `Frame.ReadAsBytes` | src/net/client.rs:41-47 | a frame reads back as its own message if and only if the size field equals the payload length and is below 256 |
| `Frame.ReadFrames` | src/net/client.rs:41-47 | a stream the reader splits is exactly the concatenation of the frames of the requests it returns, and each of those requests is readable |
| `Frame.ReadFramesOfFrames` | src/net/client.rs:41-47 | the concatenated frames of readable requests split back into exactly those requests, in order, so frames are neither merged nor torn |
| `Frame.FramesInjective` | src/net/client.rs:41-47 | two batches of readable requests that write the same bytes are the same batch |
| `Frame.OversizedFrameUnreadable` | src/net/client.rs:44 | a frame whose payload is 256 bytes or more cannot be read back, because its length byte has wrapped |
| `Frame.ZeroFile256Misread` | src/net/client.rs:44 | the frame of a 256-byte file of zeros carries length byte 0, so the stream cannot be split into frames |
| `Client.EnqueueOf` | src/net/client.rs:62-66 | the request built for a file is an Enqueue whose payload is the file's contents and whose size field is the file's length |
| `Client.BrokerClient.constructor` | src/net/client.rs:51-56 | a new client has an empty registry and has written nothing |
| `Client.BrokerClient.Send` | src/net/client.rs:57-75 | Ok exactly when the path exists, the read succeeds, the file is non-empty and the write succeeds. A missing path gives NotFound, a failed read its own error and an empty file "file is empty", each with no state change. A non-empty file always adds its path to the registry, even when the write fails. A successful write appends exactly the file's Enqueue frame to the wire; a failed one gives "failed to send" and appends nothing. The wire always remains the concatenation of whole frames, one per successful submission, each for a path in the registry (a registered path may have several frames, or none when its write failed) |
| `Client.BrokerClient.WireSplitsIntoSent` | src/net/client.rs:57-75 | while every submitted file is under 256 bytes, the wire splits back into exactly the submitted requests, in submission order |
| `Client.WireFramesRegistered` | src/net/client.rs:61-67 | the i-th frame on the wire is the Enqueue frame of a non-empty payload, sent for a path that is in the registry, and the wire is the frames before it, then it, then the frames after it |
| `Client.SendSamePathTwice` | src/net/client.rs:57-75 | sending the same non-empty file twice leaves its path in the set once and appends its frame twice |

## Left out

- `client_connect` (src/net/client.rs:81-90) is TCP connection setup and is left out. Its only logic is that a failed connect becomes an error; `BrokerClient.constructor` starts from an already connected stream.
- `client_send` (src/net/client.rs:77-80) has no member of its own. It clones the client, and the clone shares the same set and stream, so it does what `BrokerClient.Send` does on the one object.
- The `Mutex`, the `Arc` handles and async scheduling are left out. They exist for concurrency, and each call is modelled as one sequential step.
- `PyBrokerClient` and the Python binding in src/lib.rs are left out. They are a foreign-language wrapper that only maps an error to a Python exception.
- src/main.rs is left out. It is process bootstrap that connects to a fixed address.
- `println!` logging is left out.
- `Path::exists` and `std::fs::read` are replaced by the path-to-contents map and the read-error parameter.
- `BrokerClient.Send`: a failed `write_all` is modelled as writing no bytes. A real failed write may already have written part of the frame.
- `RequestMessage.payloadSize` is an unbounded `nat`, not a 64-bit `usize`. A file's length always fits in a `usize`, and only the cast to one byte changes the value.
