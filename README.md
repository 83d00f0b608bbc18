# rust-web-server: routing, response framing and thread-pool bookkeeping in Dafny

This project models two small, sequential parts of a single-threaded Rust web
server and the thread pool that ships with it, and proves properties of the
models.

**Request handling (`src/main.rs`, module `Server` in `server.dfy`).**
`handle_connection` reads a request into a 1024-byte buffer. It picks the hello
page with `HTTP/1.1 200 OK` exactly when the buffer starts with the 16 bytes
`GET / HTTP/1.1\r\n`, and the 404 page with `HTTP/1.1 404 NOT FOUND`
otherwise. It then frames the response as
`status ++ "\r\nContent-Length: " ++ decimal(len) ++ "\r\n\r\n" ++ contents`.
The model takes the buffer and the file contents as byte sequences and gives
back the response bytes:

- `RouteOf`: the `if`/`else` choice of route.
- `Decimal`: the `{}` rendering of the length.
- `Response`: the `format!` framing.
- `HandleConnection`: the three composed.

The framing's partner is a client-side reader, `ParseResponse`. It takes the
status line up to the first CR LF, reads the `Content-Length` value, skips the
blank line and takes the rest as the body. The round-trip lemma shows that the
Content-Length read back equals the body's byte length, which is what the
comment at src/main.rs:50-53 promises.

**Thread pool (`threadpool/src/lib.rs`, module `Pool` in `threadpool.dfy`).**
`ThreadPool` is a class with these fields:

- `workers`: an array of `Worker(id, thread: Option<Handle>)` records.
- `channel`: the sequence of messages sent so far, each `NewJob(job)` or `Terminate`.
- `trace`: a ghost log of every send and every join, in order.
- `dropped`: a ghost flag recording whether `drop` has run.

The operations are:

- `New`: the `assert!(pool_size > 0)`. It gives `None` for size 0.
- `Spawn`: builds the workers with a `for id in 0..pool_size` loop.
- `Execute`: sends one `NewJob`.
- `Drop`: first sends one `Terminate` per worker (`SendTerminates`). Then, for
  each worker in order, it takes the handle, leaving `None`, and joins that
  handle if there was one (`TakeAndJoin`).

The lemmas show three things:

- `drop` sends exactly as many terminates as there are workers, all behind
  every job.
- No message is sent after the first join.
- Every handle is joined exactly once, and an empty slot is skipped.

In `src/main.rs`, `main` handles connections one after another and never
constructs a `ThreadPool`, so the two parts are independent modules.

## Model

| member | source | states |
|---|---|---|
| `Server.ConstantsAreAscii` | src/main.rs:37-55 | The byte constants are the ASCII bytes of the request line `GET / HTTP/1.1\r\n`, the two status lines, and the literal pieces `\r\nContent-Length: ` and `\r\n\r\n` of the format string. |
| `Server.RouteOf` | src/main.rs:37-46 | For a 1024-byte buffer, the route is the hello route (`HTTP/1.1 200 OK`, `views/hello.html`) exactly when the first 16 bytes are `GET / HTTP/1.1\r\n`. It is the 404 route (`HTTP/1.1 404 NOT FOUND`, `views/404.html`) exactly when they are not, so these two are the only routes. |
| `Server.RouteDependsOnlyOnRequestLine` | src/main.rs:37-39 | Two buffers that agree on their first 16 bytes get the same route. |
| `Server.RouteIgnoresTail` | src/main.rs:25-39 | Overwriting any byte at an index from 16 to 1023 of the buffer never changes the route. |
| `Server.Decimal` | src/main.rs:55-57 | The decimal text of the length is non-empty and made of the digits `0`-`9` only. It starts with `0` exactly when the length is 0, so it has no leading zeros. |
| `Server.DecimalRoundTrip` | src/main.rs:55-57 | Reading the decimal text back as a number gives the length it was rendered from. |
| `Server.DecimalOfValue` | src/main.rs:55-57 | Every non-empty digit string without a leading zero is the decimal text of the number it denotes, so the rendering is the canonical one. |
| `Server.Response` | src/main.rs:54-59 | The definition of the `format!` framing. The response starts with the status line and ends with the contents. Its length is `len(status) + 18 + len(decimal(len(contents))) + 4 + len(contents)`. It is proved against the reader `ParseResponse` by `ParseResponseRoundTrip` and `HeaderEndsBeforeBody`, and `ResponseBeginsWithStatusLine` shows the status line is ended by CR LF. |
| `Server.ResponseBeginsWithStatusLine` | src/main.rs:55 | The response begins with the status line followed by CR LF, the first two bytes of the format string after `{}`. |
| `Server.IndexOf` | src/main.rs:55 | Returns the first position at or after `from` where a pattern occurs, or `None` when the pattern does not occur there. The reader uses it to find the CR LF separators of the framing. |
| `Server.ParseLengthOf` | src/main.rs:55-58 | A header value made of digits, followed by `\r\n\r\n` and a body, reads back as the number the digits denote and the body. |
| `Server.ParseHeaderOf` | src/main.rs:55-58 | The part after the status line, `\r\nContent-Length: ` + digits + `\r\n\r\n` + body, reads back as the number the digits denote and the body. |
| `Server.ParseResponseRoundTrip` | src/main.rs:50-59 | For a status line without CR, parsing the framed response gives back the status line, a Content-Length equal to the body's byte length, and the body. |
| `Server.HeaderEndsBeforeBody` | src/main.rs:55 | For a status line without CR, the first `\r\n\r\n` in the response begins immediately before the body. |
| `Server.StatusLinesHaveNoCrLf` | src/main.rs:41-45 | Neither status line contains CR or LF, so both round-trip lemmas apply to every route. |
| `Server.HandleConnection` | src/main.rs:39-59 | The route, read and frame steps of `handle_connection` composed. The response begins with `HTTP/1.1 200 OK\r\n` exactly when the buffer starts with `GET / HTTP/1.1\r\n`, and with `HTTP/1.1 404 NOT FOUND\r\n` exactly when it does not. The full read-back of the composition is `HandleConnectionReadsBack`. |
| `Server.HandleConnectionReadsBack` | src/main.rs:39-59 | For every buffer and every file contents, the response reads back as the routed status line, a Content-Length equal to the routed file's byte length, and that file's contents. |
| `Pool.TakenHandlesExactlyOnce` | threadpool/src/lib.rs:65-72 | Each worker's slot is empty or holds that worker's own handle. Under that condition, walking the workers in order takes each occupied slot's handle exactly once, takes nothing from an empty slot, and takes nothing else. |
| `Pool.EveryLiveHandleJoinedOnce` | threadpool/src/lib.rs:65-72 | When every slot holds its worker's handle, each worker's handle is taken, and so joined, exactly once. |
| `Pool.SendsThenJoins` | threadpool/src/lib.rs:59-72 | A trace made of sends followed by joins has no send after any join. |
| `Pool.JobsThenTerminates` | threadpool/src/lib.rs:47-61 | Appending `n` terminates to a channel of jobs puts every job ahead of every terminate, and leaves exactly `n` terminates in the channel. |
| `Pool.DropProtocol` | threadpool/src/lib.rs:57-73 | Take a live pool whose channel holds only jobs and whose slots hold their handles. What `drop` leaves has one terminate per worker, behind every job. No terminate is sent after any join, and each worker's handle is joined exactly once. |
| `Pool.TerminateCountAppend` | threadpool/src/lib.rs:59-61 | The number of terminates in two message sequences put end to end is the sum of their counts. |
| `Pool.TerminateCountOfTerminates` | threadpool/src/lib.rs:59-61 | `n` terminate messages count as `n` terminates. |
| `Pool.NoTerminateCountsZero` | threadpool/src/lib.rs:47-50 | A channel holding only jobs contains no terminate. |
| `Pool.New` | threadpool/src/lib.rs:19-42 | Gives `None` exactly when `pool_size` is 0 (the panic). Otherwise it gives a fresh, valid pool with an empty channel and `pool_size` workers, where worker `i` has id `i` and its thread handle. |
| `Pool.ThreadPool.Spawn` | threadpool/src/lib.rs:24-41 | For `pool_size > 0`, builds exactly `pool_size` workers in a loop, worker `i` with id `i` and `Some` handle, and starts with an empty channel and an empty trace. |
| `Pool.ThreadPool.Send` | threadpool/src/lib.rs:60 | Sending appends the message to the end of the channel and a send event to the trace. |
| `Pool.ThreadPool.Join` | threadpool/src/lib.rs:70 | Joining appends a join event for that handle to the trace. |
| `Pool.ThreadPool.Execute` | threadpool/src/lib.rs:47-50 | Appends exactly one `NewJob(job)` to the end of the channel. It leaves the workers untouched and the pool live. |
| `Pool.ThreadPool.Drop` | threadpool/src/lib.rs:57-73 | Appends exactly one `Terminate` per worker to the channel. Then it joins the taken handles in worker order, so the trace grows by all the terminate sends before any join. Each worker's handle is joined exactly once. Afterwards every slot is `None`, and the number of workers and their ids are unchanged. |
| `Pool.ThreadPool.SendTerminates` | threadpool/src/lib.rs:59-61 | The first loop of `drop` appends exactly `workers.Length` terminates to the channel and the same sends to the trace. |
| `Pool.ThreadPool.TakeAndJoin` | threadpool/src/lib.rs:65-72 | The second loop of `drop` replaces every slot with `None` and keeps the ids. It appends to the trace one join per handle that was present, in worker order. |

## Left out

- TCP I/O: `TcpListener::bind`, `incoming`, `stream.read`, `stream.write` and `stream.flush`, and their `unwrap` panics. The buffer is a parameter and the response is the result.
- `fs::read_to_string`: the file read is the function parameter `readFile` of `HandleConnection`. A failed read and its panic, including the UTF-8 check, are not modelled, and the contents are arbitrary bytes.
- Logging through `println!` and `String::from_utf8_lossy`: diagnostics with no effect on behaviour.
- Threads: spawning, the worker's fetch-and-execute loop, `Arc<Mutex<Receiver>>` and blocking `recv` are not modelled. `worker.rs` and `message.rs` are not part of this model. `Worker::new(id, receiver)` is assumed to produce `Worker { id, thread: Some(handle) }`. A handle is named by its worker's id (`Handle(id)`). `Message` is assumed to have only the two variants used in `lib.rs`.
- Job bodies: a job is an opaque type parameter and is never executed.
- Send failure and join failure: `send(...).unwrap()` cannot fail in the model, and the `unwrap` panic of `join()` is not modelled. `Execute` and `Drop` require a pool that has not been dropped. In Rust, ownership guarantees this, because `drop` runs once and nothing can use the pool afterwards.
- Join blocking: `Join` only records the event, and the wait for the thread is not modelled.
- `Pool.ThreadPool.Spawn`: the receiver is not modelled, and `Vec::with_capacity` plus `push` is modelled as filling a freshly allocated array.
- Integer widths: `usize` for `pool_size`, the ids and `contents.len()` is modelled as unbounded `nat`.
