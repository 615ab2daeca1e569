# netcode sealed buffers and UDP transceiver, modelled in Dafny

This project models the two leaf components of the netcode transport.

- **Sealed-buffer codec** (`src/crypto.rs`). `encrypt` seals a caller-owned
  byte buffer in place with ChaCha20-Poly1305 (section 2.8 of RFC 8439).
  The leading `len - MAC_SIZE` bytes hold the plaintext and become the
  ciphertext. The trailing `MAC_SIZE` (16) bytes receive the detached tag.
  `decrypt` verifies that tag and turns the leading region back into
  plaintext. The 64-bit packet counter is widened into the 96-bit cipher
  nonce: four zero bytes, then the counter in little-endian order.
- **Datagram transceiver** (`src/socket.rs`). `NetcodeSocket::recv` and
  `NetcodeSocket::send` turn the operating system's answer into the
  transceiver's result. Would-block and zero-length datagrams become
  "nothing", and other errors are wrapped. `NetcodeSocket::new` resolves an
  address and then configures a UDP socket through a fixed sequence of
  calls, stopping at the first refusal.

## Layout

- `wrappers.dfy` (module `Wrappers`): `Option` and `Result`.
- `nonce.dfy` (module `Nonce`): `u8`, `u64`, the little-endian
  encoding `LeBytes`, its decoding `LeValue`, the cipher nonce
  `CipherNonce`, and `DeriveNonce`, which fills the 12-byte nonce array
  byte by byte as the cursor write does.
- `crypto.dfy` (module `Crypto`): the foreign AEAD as a value, the
  specification functions `SealedBuffer` and `OpenedBuffer`, the in-place
  methods `Encrypt` and `Decrypt` on `array<u8>`, and the framing lemmas.
- `socket.dfy` (module `Socket`): addresses (four IPv4 octets or eight
  IPv6 segments), I/O errors, `Recv`, `Send`,
  `FirstAddress`, the configuration `Plan`, and the classes `UdpSocket`
  (the OS socket being configured) and `NetcodeSocket` (whose `New`
  performs the plan).

The AEAD comes from a library the model cannot see, so it is a parameter.
A value of type `Aead` supplies detached encryption and decryption.
`InPlace(aead)` states the slice API's length facts: the ciphertext is as
long as the plaintext, the tag is 16 bytes, and a plaintext is as long as
its ciphertext. `Correct(aead)` is AEAD correctness: decrypting what was
encrypted, under the same key, nonce and associated data, gives the
plaintext back. `Encrypt` and `Decrypt` require `InPlace`. The round-trip
lemmas also require `Correct`. `ToyAeadSatisfiesAssumptions` shows that
these assumptions can hold together.

Operating-system behaviour is also a parameter. `Recv` and `Send` take the
result of `recv_from` and `send_to`. `New` takes the result of address
resolution and an `Os` value that says which configuration calls the
system refuses, and with which error.

Constants: `MAC_SIZE = 16` and `PRIVATE_KEY_SIZE = 32`. The constants
module of the repository is not part of this model. 16 is the Poly1305 tag
size named in the comment at `src/crypto.rs:52`, and 32 is the ChaCha20
key size that `key.into()` needs.

## Model

| member | source | states |
|---|---|---|
| `Nonce.LeBytes` | src/crypto.rs:56 | the little-endian encoding of a value has exactly the requested number of bytes |
| `Nonce.LeValueOfLeBytes` | src/crypto.rs:56 | decoding the little-endian encoding of a value that fits gives the value back |
| `Nonce.LeBytesOfLeValue` | src/crypto.rs:56 | encoding the value of a byte string gives the byte string back |
| `Nonce.LeBytesAt` | src/crypto.rs:56 | byte i of the encoding is digit i of the value in base 256, i.e. the encoding is little-endian |
| `Nonce.CipherNonce` | src/crypto.rs:55-56 | the derived cipher nonce is 12 bytes long |
| `Nonce.CipherNonceLayout` | src/crypto.rs:55-56 | bytes 0..4 of the cipher nonce are zero and byte 4+i is byte i of the counter, low byte first |
| `Nonce.CipherNonceDecodes` | src/crypto.rs:55-56 | decoding bytes 4..12 of the cipher nonce gives back the 64-bit counter |
| `Nonce.CipherNonceInjective` | src/crypto.rs:76-77 | distinct counters give distinct cipher nonces |
| `Nonce.DeriveNonce` | src/crypto.rs:55-56 | the freshly allocated 12-byte array, zero-filled and then written through the cursor, equals the cipher nonce |
| `Crypto.GenerateKeyFrom` | src/crypto.rs:26-30 | the key is exactly what the random source supplied; a random-source failure becomes `GenerateKey` and never yields a key |
| `Crypto.SealRejectsShortBuffer` | src/crypto.rs:50-54 | `encrypt` reports `BufferSizeMismatch` if and only if the buffer is shorter than MAC_SIZE |
| `Crypto.OpenRejectsShortBuffer` | src/crypto.rs:72-75 | `decrypt` reports `BufferSizeMismatch` if and only if the buffer is shorter than MAC_SIZE |
| `Crypto.SealLayout` | src/crypto.rs:55-62 | on success the length is kept, the leading region is the AEAD's ciphertext of the old leading region (under the widened nonce and the associated data), and the trailing MAC_SIZE bytes are its tag |
| `Crypto.SealFailsOnlyInCipher` | src/crypto.rs:57-61 | `encrypt` reports `Failed` exactly when the buffer is large enough and the AEAD refuses the leading region |
| `Crypto.SealSucceedsOnLargeEnoughBuffer` | src/crypto.rs:50-63 | with a library that never refuses, `encrypt` succeeds exactly on buffers of at least MAC_SIZE bytes |
| `Crypto.OpenLayout` | src/crypto.rs:76-85 | `decrypt` passes the leading region as ciphertext and the trailing MAC_SIZE bytes as tag; it fails with `Failed` exactly when the AEAD rejects them; otherwise the leading region becomes the plaintext and the tag bytes stay |
| `Crypto.AbsentAssociatedDataIsEmpty` | src/crypto.rs:59 | absent associated data gives the same result as empty associated data, for `encrypt` and for `decrypt` (line 81) |
| `Crypto.RoundTrip` | src/crypto.rs:44-86 | under AEAD correctness, decrypting a buffer sealed with the same key, nonce and associated data succeeds and restores the original leading region |
| `Crypto.TagOnlyBuffer` | src/crypto.rs:102-112 | a buffer of exactly MAC_SIZE bytes is never refused for its size and, once sealed, opens again to an empty plaintext; an empty buffer is refused (line 93-98) |
| `Crypto.CopyInto` | src/crypto.rs:62 | `copy_from_slice` overwrites exactly the target range and leaves the rest of the buffer as it was |
| `Crypto.Encrypt` | src/crypto.rs:44-64 | the buffer afterwards is what `SealedBuffer` computes from its old contents; on any error the result is that error and no byte has changed |
| `Crypto.Decrypt` | src/crypto.rs:66-86 | the buffer afterwards is what `OpenedBuffer` computes from its old contents; on any error the result is that error and no byte has changed |
| `Socket.DomainFor` | src/socket.rs:47 | the socket's family is IPv6 exactly when the address is IPv6 |
| `Socket.Recv` | src/socket.rs:66-73 | `Some((len, addr))` is returned exactly for a datagram of positive length, with the same length and sender; `None` is returned exactly for a zero-length datagram or would-block; any other error is returned wrapped, unchanged |
| `Socket.Send` | src/socket.rs:75-81 | the OS's byte count is returned unchanged; would-block gives 0; any other error is returned wrapped, unchanged |
| `Socket.FirstAddress` | src/socket.rs:44-46 | the first resolved address is used; a resolution error passes through; no address gives an `InvalidInput` error |
| `Socket.PlanOrder` | src/socket.rs:47-54 | the calls are: create for the address's family first, then set IPv6-only exactly when the address is IPv6, then send buffer, receive buffer, bind, and non-blocking mode last |
| `Socket.FirstFailureIsFirst` | src/socket.rs:47-55 | construction reports no failure exactly when every call is accepted, and otherwise the error of a refused call that all earlier calls preceded successfully |
| `Socket.UdpSocket.constructor` | src/socket.rs:47 | a new socket has its family and no option set yet |
| `Socket.UdpSocket.Open` | src/socket.rs:47 | socket creation fails with the OS error when refused, and otherwise gives a fresh socket of the requested family |
| `Socket.UdpSocket.SetOnlyV6` | src/socket.rs:48-50 | records the call and sets IPv6-only when the OS accepts; nothing else changes |
| `Socket.UdpSocket.SetSendBufferSize` | src/socket.rs:51 | records the call and sets the send buffer size when the OS accepts; nothing else changes |
| `Socket.UdpSocket.SetRecvBufferSize` | src/socket.rs:52 | records the call and sets the receive buffer size when the OS accepts; nothing else changes |
| `Socket.UdpSocket.Bind` | src/socket.rs:53 | records the call and binds to the address when the OS accepts; nothing else changes |
| `Socket.UdpSocket.SetNonblocking` | src/socket.rs:54 | records the call and switches to non-blocking mode when the OS accepts; nothing else changes |
| `Socket.Configure` | src/socket.rs:48-54 | the calls made on the socket are exactly those of the configuration up to and including the first refusal (`Attempted`), and the reported error is that refusal's; when all are accepted, the socket is IPv6-only exactly for IPv6 addresses, has both buffer sizes, is bound and is non-blocking |
| `Socket.ConfigureFinalSteps` | src/socket.rs:51-54 | the buffer-size, bind and non-blocking calls are made in that order up to and including the first refusal and no further, and that refusal's error is reported; when all are accepted the three settings hold |
| `Socket.AttemptedStopsAtFirstFailure` | src/socket.rs:47-55 | the calls made are a prefix of the plan: all of it when nothing is refused, and otherwise ending with the refused call whose error is reported, every earlier call accepted |
| `Socket.NetcodeSocket.constructor` | src/socket.rs:55 | the transceiver wraps the configured socket |
| `Socket.NetcodeSocket.New` | src/socket.rs:39-56 | a resolution error, an empty resolution, or the first refused call yields that error and no transceiver; otherwise a fresh transceiver whose socket received exactly the planned calls in order and is configured for the first resolved address |

## Left out

- ChaCha20 and Poly1305 themselves belong to a foreign library. They are the abstract `Aead` parameter, constrained only by `InPlace` and `Correct`.
- Cryptographic security claims are not modelled: a flipped bit, a wrong key, a wrong nonce or wrong associated data failing authentication are probabilistic properties of the cipher.
- Crypto.Decrypt: a rejected tag leaves the buffer unchanged in the model, because the model writes the plaintext only after the abstract decryption accepts. The library's behaviour on rejection cannot be seen here, and callers must treat the buffer as discarded anyway.
- The `Error::Io` path of the cursor write (`src/crypto.rs:56`, `77`) is not modelled: the target slice is exactly 8 bytes, so the write cannot fail.
- The `InvalidPublicKeySize` variant is unused and not modelled, and neither is the commented-out `Nonce` trait.
- `generate_key` gets the operating system's random source as a parameter (`GenerateKeyFrom`): either `PRIVATE_KEY_SIZE` bytes or a failure.
- The constants module and the transceiver trait module are not part of this model. Of the trait's methods, `recv` and `send` are modelled as `Recv` and `Send`, and `addr` is left out (next line). The inherent constructor `NetcodeSocket::new` is `NetcodeSocket.New`.
- `addr()` (`src/socket.rs:62-64`) is not modelled: it only reads the bound address from the OS and panics if there is none.
- Real socket behaviour is not modelled: address resolution, the bytes `recv_from` writes into the caller's buffer, OS buffer sizing, and what IPv6-only binding does to traffic. Every OS answer is a parameter.
- Socket.NetcodeSocket.New: an `Os` value answers each call by the call alone, so a system whose answer depends on earlier calls is not represented.
- Concurrent `send` and `recv` on one socket from several threads is not modelled.
- Lengths are unbounded naturals; `usize` limits are not modelled. The 64-bit counter is the bounded `u64`.
