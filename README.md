# Minecraft login client: session layer in Dafny

This project models the protocol session layer of a C++ client for the
Minecraft Java edition. The client connects to a server, signs in, and
stops once the server accepts the login. The model covers:

- the byte codecs: `ReadBuffer`, `WriteBuffer`, `FastSerializer` and `BufferUtil`. They handle big-endian integers, the 7-bit VarInt and VarInt-prefixed strings;
- the UUID helpers;
- the packets of the handshake, login and status stages;
- the transport framing: the compression sentinel, the length prefix, and the CFB8 encryption applied last;
- the packet registry and the receive dispatch;
- the login state machine of `main.cpp` and of the login handler;
- the NBT tag codec and the text-component codec;
- the URL split used by the HTTP helper;
- the dash filter of the auth session;
- the bump allocator.

Each file is one module and follows one part of the program:

- `ints`, `varint`, `codec`: wire formats as functions.
- `read_buffer`, `write_buffer`, `fast_serializer`, `buffer_util`: the buffer classes, as classes with a cursor or a byte sequence.
- `uuid`, `strip_dashes`: the UUID and dash helpers.
- `client_packets`, `server_packets`: the packet structs.
- `framing`, `cfb8`, `socket`, `tcp_connection`: the transport.
- `registry`, `packet_handler`: dispatch.
- `login`, `login_handler`: the login sequence.
- `nbt`, `nbt_tags`: NBT.
- `text_component`, `url`, `memory_pool`: the remaining pieces.

C++ exceptions become the `Err` case of a `Result`, with one `Error` value
per kind of exception. A reader at a cursor yields a `Read` value, which
holds its result and the cursor position afterwards. Each stateful method
is proved equal to a pure function of the old state. The properties are
then proved about those functions.

Conventions of the model:

- zlib is a pair of function parameters (`deflate`, `inflate`).
- The AES block function is a function parameter under the CFB8 mode.
- Sockets are a byte stream given as a parameter to the methods that read it.

Where the code does something other than the protocol or its own names
suggest, the model follows the code:

- The status packets are filed under the Configuration state of the registry, not under a Status state; Status, Handshaking and Play have no entries.
- The packet handler's state stays Handshaking, so its registry lookups all fail on the state.
- A packet read error in the packet handler drops the frame and keeps going; it does not end the connection.
- `main` answers a login success received first by waiting for one more packet, which must again be a login success (or a compression packet, then a login success).
- NBT strings and names carry a VarInt length, as in the rest of the codec.

## Model

| member | source | states |
|---|---|---|
| Ints.UnBEofBE | src/buffer/write_buffer.cpp:43-73 | decoding the n big-endian bytes of a value below 256^n gives the value back |
| Ints.BEofUnBE | src/buffer/read_buffer.cpp:44-78 | re-encoding the value read from s, at the width of s, gives back s |
| Ints.Int16RoundTrip | src/buffer/write_buffer.cpp:37-41 | writeInt16 emits 2 bytes, and readInt16 reads them back as the same signed value |
| Ints.UInt16RoundTrip | src/buffer/write_buffer.cpp:53-57 | writeUInt16 emits 2 bytes that readUInt16 reads back as the same value |
| Ints.Int32RoundTrip | src/buffer/write_buffer.cpp:43-49 | writeInt32 emits 4 bytes, and readInt32 reads them back as the same two's-complement value |
| Ints.UInt32RoundTrip | src/buffer/write_buffer.cpp:59-65 | writeUInt32 emits 4 bytes that readUInt32 reads back as the same value |
| Ints.Int64RoundTrip | src/buffer/write_buffer.cpp:67-73 | writeLong emits 8 bytes, and readLong reads them back as the same value |
| Ints.Int32Onto | src/buffer/read_buffer.cpp:44-53 | every 4-byte sequence is the encoding of the int32 read from it, so the 32-bit codec is a bijection |
| Ints.AsInt32OfAsUInt32 | src/util/fast_serializer.hpp:44 | the static_cast of an int32 to uint32 and back is the identity |
| Ints.AsUInt32OfAsInt32 | src/util/fast_serializer.hpp:44 | the cast of a uint32 to int32 and back is the identity |
| Ints.Count32 | src/buffer/write_buffer.cpp:101-104 | static_cast<int32_t> leaves every size below 2^31 unchanged |
| Ints.Count32Bits | src/buffer/write_buffer.cpp:101-104 | static_cast<int32_t> of a size keeps its low 32 bits |
| VarInts.Leb128Shape | src/util/fast_serializer.hpp:43-51 | the 7-bit groups of u carry the 0x80 bit on every byte but the last, and their count is the least k with u < 128^k |
| VarInts.EncodeLength | src/buffer/write_buffer.cpp:91-99 | the VarInt of an int32 is 1 to 5 bytes long, and always 5 for a negative value; the continuation bit is set on all but the last byte |
| VarInts.ReadLoopNext | src/buffer/read_buffer.cpp:80-95 | the readVarInt loop never moves the cursor backwards or past the end, and a success consumes at least one byte |
| VarInts.ReadLoopOfLeb128 | src/buffer/read_buffer.cpp:85-92 | the loop that adds (b & 0x7F) << 7i for each byte reads back the value whose groups are at the cursor |
| VarInts.RoundTrip | src/buffer/read_buffer.cpp:80-95 | readVarInt on the bytes of writeVarInt(v) returns v and moves past exactly those bytes |
| VarInts.SignedNeverStops | src/buffer/write_buffer.cpp:91-99 | with the signed >>= as written, a negative value stays negative after any number of passes, so the loop never ends |
| VarInts.SignedBytesAgree | src/buffer/write_buffer.cpp:91-99 | for a non-negative value, the as-written loop emits exactly the VarInt encoding |
| VarInts.MinusOneNeverStops | src/util/buffer_util.cpp:16-24 | for -1, every pass emits 0xFF and keeps -1 |
| Codec.BytesAt | src/buffer/read_buffer.cpp:14-20 | a successful readBytes(len) yields exactly len bytes; it fails with OutOfBounds and the cursor unchanged when fewer remain |
| Codec.ReadsInside | src/buffer/read_buffer.cpp:10-12 | no fixed-width read moves the cursor backwards or past the end of the data |
| Codec.HasAtSplit | src/buffer/write_buffer.cpp:18-24 | bytes a writer appended one after the other can be found one after the other by the reader |
| Codec.BytesAtHas | src/buffer/read_buffer.cpp:14-20 | readBytes at a place that holds s returns s and moves past it |
| Codec.VarIntThen | src/buffer/read_buffer.cpp:80-95 | a VarInt followed by more bytes reads back as v, and the rest starts where the VarInt ends |
| Codec.VarIntRoundTrip | src/buffer/read_buffer.cpp:80-95 | readVarInt inverts writeVarInt at any position in a larger buffer |
| Codec.PrefixedRoundTrip | src/buffer/read_buffer.cpp:117-129 | readString and readByteArray invert writeString and writeByteArray: the length, then exactly that many bytes |
| Codec.PrefixedOf | src/buffer/read_buffer.cpp:117-124 | readString reads its VarInt length and then readBytes of that length |
| Codec.PrefixedThen | src/buffer/read_buffer.cpp:117-129 | a prefixed string followed by more bytes reads back, and the rest starts right after it |
| Codec.BytesThen | src/buffer/read_buffer.cpp:14-20 | raw bytes followed by more bytes read back, and the rest starts right after them |
| Codec.UInt16Then | src/buffer/read_buffer.cpp:61-67 | a big-endian uint16 followed by more bytes reads back, and the rest starts 2 bytes later |
| Codec.PrefixedTruncated | src/buffer/read_buffer.cpp:119-120 | a prefixed string missing its last byte fails with OutOfBounds |
| Codec.Int16RoundTrip | src/buffer/read_buffer.cpp:36-42 | readInt16 inverts writeInt16 and advances by 2 |
| Codec.UInt16RoundTrip | src/buffer/read_buffer.cpp:61-67 | readUInt16 inverts writeUInt16 and advances by 2 |
| Codec.Int32RoundTrip | src/buffer/read_buffer.cpp:44-53 | readInt32 inverts writeInt32 and advances by 4 |
| Codec.UInt32RoundTrip | src/buffer/read_buffer.cpp:69-78 | readUInt32 inverts writeUInt32 and advances by 4 |
| Codec.Int64RoundTrip | src/buffer/read_buffer.cpp:97-111 | readLong inverts writeLong and advances by 8 |
| Codec.NegativeLengthPassesCheck | src/buffer/read_buffer.cpp:117-124 | the length -1 from FF FF FF FF 0F passes the as-written size_t check, while the corrected reader refuses it |
| Codec.EnsureAsWrittenNegative | src/buffer/read_buffer.cpp:118-120 | for a negative length, the as-written ensure passes exactly when the cursor is at least the length's magnitude |
| Codec.MinusOneVarInt | src/buffer/read_buffer.cpp:80-95 | FF FF FF FF 0F is read as the VarInt -1 |
| ReadBuffers.ReadBuffer.Remaining | src/buffer/read_buffer.cpp:135 | remaining() plus the cursor is the size, so it is never negative |
| ReadBuffers.ReadBuffer.CopyRemaining | src/buffer/read_buffer.cpp:131-133 | copyRemaining() is the unread suffix of the data, and the cursor does not move |
| ReadBuffers.ReadBuffer.ReadBytes | src/buffer/read_buffer.cpp:14-20 | the next len bytes and a cursor advanced by len, or OutOfBounds with the cursor unchanged |
| ReadBuffers.ReadBuffer.ReadByte | src/buffer/read_buffer.cpp:22-26 | the byte at the cursor and an advance of 1, or OutOfBounds |
| ReadBuffers.ReadBuffer.ReadInt8 | src/buffer/read_buffer.cpp:28-32 | the byte at the cursor read as a signed byte |
| ReadBuffers.ReadBuffer.ReadBool | src/buffer/read_buffer.cpp:34 | true exactly when the byte at the cursor is nonzero |
| ReadBuffers.ReadBuffer.ReadInt16 | src/buffer/read_buffer.cpp:36-42 | the two bytes at the cursor as big-endian int16, with an advance of 2, or OutOfBounds |
| ReadBuffers.ReadBuffer.ReadUInt16 | src/buffer/read_buffer.cpp:61-67 | the two bytes at the cursor as big-endian uint16, with an advance of 2, or OutOfBounds |
| ReadBuffers.ReadBuffer.ReadInt32 | src/buffer/read_buffer.cpp:44-53 | the four bytes at the cursor as big-endian int32, with an advance of 4, or OutOfBounds |
| ReadBuffers.ReadBuffer.ReadUInt8 | src/buffer/read_buffer.cpp:55-59 | the byte at the cursor, with an advance of 1, or OutOfBounds |
| ReadBuffers.ReadBuffer.ReadUInt32 | src/buffer/read_buffer.cpp:69-78 | the four bytes at the cursor as big-endian uint32, with an advance of 4, or OutOfBounds |
| ReadBuffers.ReadBuffer.ReadBE4 | src/buffer/read_buffer.cpp:47-50 | the or of the four shifted bytes is their big-endian value |
| ReadBuffers.ReadBuffer.ReadVarInt | src/buffer/read_buffer.cpp:80-95 | the do-while loop computes the VarInt at the cursor: OutOfBounds if the data ends mid-VarInt, VarIntTooBig on a sixth byte |
| ReadBuffers.ReadBuffer.ReadLong | src/buffer/read_buffer.cpp:97-111 | the eight bytes at the cursor as big-endian int64, with an advance of 8, or OutOfBounds |
| ReadBuffers.ReadBuffer.ReadString | src/buffer/read_buffer.cpp:117-124 | a VarInt length, then that many bytes, or the failure of either read |
| ReadBuffers.ReadBuffer.ReadByteArray | src/buffer/read_buffer.cpp:126-129 | readBytes(readVarInt()): the same layout as readString |
| ReadBuffers.ReadBuffer.constructor | src/buffer/read_buffer.cpp:8 | the buffer holds the data with the cursor at 0 |
| WriteBuffers.FlattenHead | src/buffer/write_buffer.cpp:18-24 | compile's output is the first segment followed by the rest, in order |
| WriteBuffers.LongBytes | src/buffer/write_buffer.cpp:67-73 | the loop over i = 7..0 fills buf with the 8 big-endian bytes of the value |
| WriteBuffers.WriteBuffer.constructor | src/buffer/write_buffer.cpp:6 | a new buffer has no segments and compiles to nothing |
| WriteBuffers.WriteBuffer.WriteBytes | src/buffer/write_buffer.cpp:8-11 | the data is added as one more segment, and the contents grow by exactly that data |
| WriteBuffers.WriteBuffer.Compile | src/buffer/write_buffer.cpp:18-24 | the output is the in-order concatenation of all segments, and its length is totalSize_ |
| WriteBuffers.WriteBuffer.Clear | src/buffer/write_buffer.cpp:26-29 | no segments, totalSize_ 0 and empty contents |
| WriteBuffers.WriteBuffer.WriteBool | src/buffer/write_buffer.cpp:31-33 | one byte is appended: 1 for true, 0 for false |
| WriteBuffers.WriteBuffer.WriteInt8 | src/buffer/write_buffer.cpp:35 | the byte of the signed value is appended |
| WriteBuffers.WriteBuffer.WriteUInt8 | src/buffer/write_buffer.cpp:51 | the byte is appended |
| WriteBuffers.WriteBuffer.WriteInt16 | src/buffer/write_buffer.cpp:37-41 | the 2 big-endian bytes of the value are appended |
| WriteBuffers.WriteBuffer.WriteUInt16 | src/buffer/write_buffer.cpp:53-57 | the 2 big-endian bytes of the value are appended |
| WriteBuffers.WriteBuffer.WriteInt32 | src/buffer/write_buffer.cpp:43-49 | the 4 big-endian two's-complement bytes of the value are appended |
| WriteBuffers.WriteBuffer.WriteUInt32 | src/buffer/write_buffer.cpp:59-65 | the 4 big-endian bytes of the value are appended |
| WriteBuffers.WriteBuffer.WriteLong | src/buffer/write_buffer.cpp:67-73 | the 8 big-endian bytes of the value are appended |
| WriteBuffers.WriteBuffer.WriteVarInt | src/buffer/write_buffer.cpp:91-99 | the VarInt of the value is appended, one segment per byte; this is the corrected loop with an unsigned shift |
| WriteBuffers.WriteBuffer.WriteString | src/buffer/write_buffer.cpp:101-104 | for any size, the size cast to int32 as a VarInt, then the bytes; below 2^31 bytes the prefix is the size |
| WriteBuffers.WriteBuffer.WriteByteArray | src/buffer/write_buffer.cpp:106-109 | for any size, the size cast to int32 as a VarInt, then the bytes; below 2^31 bytes the prefix is the size |
| FastSerializers.FastAgreesOnAccepted | src/util/fast_serializer.hpp:109-127 | FastDeserializer's loop gives the same value as ReadBuffer's on every encoding that ReadBuffer accepts |
| FastSerializers.FastVarIntRoundTrip | src/util/fast_serializer.hpp:109-127 | FastDeserializer::readVarInt inverts writeVarInt |
| FastSerializers.FastStringRoundTrip | src/util/fast_serializer.hpp:130-139 | FastDeserializer::readString inverts writeString |
| FastSerializers.ReadersDiffer | src/util/fast_serializer.hpp:113-126 | on empty or truncated input the fast reader silently returns a partial value where ReadBuffer fails; on five continuation bytes it fails with a different error |
| FastSerializers.FastSerializer.constructor | src/util/fast_serializer.hpp:11 | the serializer appends to the given buffer |
| FastSerializers.FastSerializer.WriteIntBE | src/util/fast_serializer.hpp:14-40 | sizeof(T) bytes of the value modulo 256^size are appended, most significant first |
| FastSerializers.FastSerializer.WriteVarInt | src/util/fast_serializer.hpp:43-51 | the value is shifted as a uint32, and the VarInt encoding is appended for every int32 |
| FastSerializers.FastSerializer.WriteString | src/util/fast_serializer.hpp:54-57 | for any size, the size cast to int32 as a VarInt, then the bytes; below 2^31 bytes the prefix is the size |
| FastSerializers.FastSerializer.WriteRaw | src/util/fast_serializer.hpp:60-63 | the bytes are appended unchanged |
| FastSerializers.FastDeserializer.constructor | src/util/fast_serializer.hpp:72-73 | the reader is at position 0 of the buffer |
| FastSerializers.FastDeserializer.ReadIntBE | src/util/fast_serializer.hpp:75-106 | OutOfBounds with the position unchanged if pos + size passes the end; otherwise the big-endian value, with an advance of size |
| FastSerializers.FastDeserializer.ReadVarInt | src/util/fast_serializer.hpp:109-127 | the loop computes the fast reader's VarInt: VarIntTooBig once the shift reaches 32, and a partial value at the end of the buffer |
| FastSerializers.FastDeserializer.ReadString | src/util/fast_serializer.hpp:130-139 | a VarInt length, then that many bytes, or OutOfBounds when they overrun |
| FastSerializers.NegativeLengthPassesCheck | src/util/fast_serializer.hpp:130-139 | the length -1 from FF FF FF FF 0F passes the as-written `pos_ + length` check in size_t, while the model's reader refuses it |
| FastSerializers.FastDeserializer.Remaining | src/util/fast_serializer.hpp:141 | remaining() plus the position is the size of the buffer |
| BufferUtils.BufferUtil.constructor | src/util/buffer_util.cpp:11 | an empty buffer with the cursor at 0 |
| BufferUtils.BufferUtil.FromData | src/util/buffer_util.cpp:13-14 | the buffer holds the data with the cursor at 0 |
| BufferUtils.BufferUtil.WriteVarInt | src/util/buffer_util.cpp:16-24 | the VarInt of the value is appended and the cursor is unchanged; this is the corrected loop with an unsigned shift |
| BufferUtils.BufferUtil.WriteUInt16 | src/util/buffer_util.cpp:26-29 | the 2 big-endian bytes are appended |
| BufferUtils.BufferUtil.WriteBytes | src/util/buffer_util.cpp:41-43 | the bytes are appended |
| BufferUtils.BufferUtil.WriteString | src/util/buffer_util.cpp:31-34 | for any size, the size cast to int32 as a VarInt, then the bytes; below 2^31 bytes the prefix is the size |
| BufferUtils.BufferUtil.WriteByteArray | src/util/buffer_util.cpp:36-39 | for any size, the size cast to int32 as a VarInt, then the bytes; below 2^31 bytes the prefix is the size |
| BufferUtils.BufferUtil.ReadVarInt | src/util/buffer_util.cpp:45-58 | the VarInt at the cursor, with OutOfBounds at the end of the buffer and VarIntTooBig on a sixth byte; the buffer is unchanged |
| BufferUtils.BufferUtil.ReadUInt16 | src/util/buffer_util.cpp:60-66 | the two bytes at the cursor as big-endian uint16, or OutOfBounds |
| BufferUtils.BufferUtil.ReadByte | src/util/buffer_util.cpp:68-72 | the byte at the cursor, or OutOfBounds |
| BufferUtils.BufferUtil.ReadString | src/util/buffer_util.cpp:74-82 | a VarInt length, then that many bytes, or OutOfBounds when the length overruns |
| BufferUtils.BufferUtil.ReadByteArray | src/util/buffer_util.cpp:84-87 | readBytes(readVarInt()): the same layout as readString |
| BufferUtils.BufferUtil.ReadBytes | src/util/buffer_util.cpp:89-96 | the next length bytes and an advance of length, or OutOfBounds |
| BufferUtils.BufferUtil.Remaining | src/util/buffer_util.cpp:98 | remaining() plus the cursor is the size of the buffer |
| BufferUtils.StringRoundTrip | src/util/buffer_util.cpp:74-82 | readString inverts writeString, whatever follows the string |
| BufferUtils.UInt16RoundTrip | src/util/buffer_util.cpp:60-66 | readUInt16 inverts writeUInt16, whatever follows |
| Uuid.HexVal | src/util/uuid_utils.hpp:33 | the value of one hex digit, as stoul with base 16 reads it, is below 16 |
| Uuid.HexDigitValue | src/util/uuid_utils.hpp:49-55 | the digit std::hex prints for n < 16 is lower-case hex, and reading it back gives n |
| Uuid.HexRange | src/util/uuid_utils.hpp:51-56 | the hex of bytes i..j has two characters per byte |
| Uuid.ParseDashless | src/util/uuid_utils.hpp:13-41 | succeeds exactly when the input is 32 hex characters, and fails with invalid_argument otherwise; byte i is the value of the hex pair at 2i |
| Uuid.Format | src/util/uuid_utils.hpp:43-59 | succeeds exactly when there are 16 bytes, and fails with invalid_argument otherwise |
| Uuid.HexRangeAt | src/util/uuid_utils.hpp:55 | byte k is printed as its high digit, then its low digit |
| Uuid.HexRangeLower | src/util/uuid_utils.hpp:49 | the hex digits printed are all lower case |
| Uuid.FormatRun | src/util/uuid_utils.hpp:51-56 | the output from byte i is an optional dash, the hex of bytes i..j, then the output from byte j |
| Uuid.FormatGroups | src/util/uuid_utils.hpp:51-56 | the output is the 8-4-4-4-12 groups of the bytes joined by dashes |
| Uuid.FormatLayout | src/util/uuid_utils.hpp:43-59 | the output is 36 characters, with a dash exactly at 8, 13, 18 and 23 and lower-case hex everywhere else |
| Uuid.StripFormatFrom | src/util/uuid_utils.hpp:51-56 | removing the dashes from the output leaves the plain hex of the bytes |
| Uuid.ParseHexRange | src/util/uuid_utils.hpp:29-34 | parsing the 32 hex digits of 16 bytes gives back the bytes |
| Uuid.FormatParseRoundTrip | src/util/uuid_utils.hpp:13-59 | for any 16 bytes, parse(stripDashes(format(b))) == b |
| Uuid.ParseFormatRoundTrip | src/util/uuid_utils.hpp:13-59 | for any accepted input, formatting the parsed bytes and removing the dashes gives the input in lower case |
| Uuid.PairOfDigits | src/util/uuid_utils.hpp:33 | printing the byte parsed from two hex digits gives those digits in lower case |
| Uuid.LowerHex | src/util/uuid_utils.hpp:33 | printing the value of a hex digit gives that digit in lower case |
| Dashes.Strip | src/authenticate/auth_session.cpp:108-116 | the loop builds exactly StripDashes of its input: the characters other than '-', in order |
| Dashes.StripDashes | src/authenticate/auth_session.cpp:108-116 | the output is never longer than the input |
| Dashes.StripAppend | src/authenticate/auth_session.cpp:110-113 | stripping distributes over concatenation, so the kept characters stay in their order |
| Dashes.AppendChar | src/authenticate/auth_session.cpp:110-113 | one turn of the loop appends the character to the result unless it is '-' |
| Dashes.NoDashes | src/authenticate/auth_session.cpp:108-113 | the output contains no '-' |
| Dashes.KeepsOthers | src/authenticate/auth_session.cpp:110-113 | the output holds every other character of the input, as often as the input does |
| Dashes.NoDashIdentity | src/authenticate/auth_session.cpp:108-116 | an input without '-' comes back unchanged |
| Dashes.Idempotent | src/authenticate/auth_session.cpp:108-116 | stripping twice is stripping once |
| ClientPackets.HandshakeRoundTrip | src/protocol/client/handshaking/handshake.hpp:24-31 | the handshake is VarInt 0x00, then the VarInt version, the address string, 2 big-endian port bytes and the VarInt next state, in that order; reading the fields back in that order restores the packet |
| ClientPackets.LoginStartLayout | src/protocol/client/login/login_start.hpp:28-33 | LoginStart is VarInt 0, the username string, then the 16 raw uuid bytes with no length prefix, so its length is 1 + vlen(u) + len(u) + 16 |
| ClientPackets.DefaultLoginStartBytes | src/protocol/client/login/login_start.hpp:17 | the default packet, with an empty name and an all-zero uuid, is 0, 0 and sixteen zeros |
| ClientPackets.EncryptionResponseRoundTrip | src/protocol/client/login/encryption_response.hpp:23-28 | EncryptionResponse is VarInt 0x01, then the secret and the token as length-prefixed byte arrays, and it reads back in that order |
| ClientPackets.LoginAcknowledgedIsOneByte | src/protocol/client/login/login_acknowledged.hpp:20-23 | LoginAcknowledged serializes to exactly [0x03] |
| ClientPackets.PingRequestLayout | src/protocol/client/status/ping_request.hpp:21-25 | a ping request is always 9 bytes: VarInt 0x01, then the timestamp as 8 big-endian bytes |
| ClientPackets.CookieResponse.constructor | src/protocol/client/login/cookie_response.hpp:15 | the default packet has an empty key and no payload |
| ClientPackets.CookieResponse.Serialize | src/protocol/client/login/cookie_response.hpp:27-32 | serialize fails with bad_optional_access exactly when the payload is absent |
| ClientPackets.CookieResponse.Read | src/protocol/client/login/cookie_response.hpp:34-37 | read takes the key string, then the payload byte array; on success both fields are set and the payload is present |
| ClientPackets.CookieResponseRoundTrip | src/protocol/client/login/cookie_response.hpp:27-37 | with a payload, serialize gives VarInt 0x04, the key and the payload, and reading after the id restores the key and the payload |
| ServerPackets.EncryptionRequest.constructor | src/protocol/server/login/encryption_request.hpp:17 | a new request has empty fields |
| ServerPackets.EncryptionRequest.Read | src/protocol/server/login/encryption_request.hpp:29-33 | read takes the server id string, the public key byte array and the verify token byte array, in that order; a failure of any of them is the packet's failure |
| ServerPackets.EncryptionRequestRoundTrip | src/protocol/server/login/encryption_request.hpp:29-33 | the three fields a server writes after id 0x01 read back unchanged, and the cursor ends after them |
| ServerPackets.EncryptionRequestTruncated | src/protocol/server/login/encryption_request.hpp:30-32 | a request missing its last byte fails with OutOfBounds |
| ServerPackets.EncryptionRequestOf | src/protocol/server/login/encryption_request.hpp:32 | when the verify token fails, the whole read fails with that error |
| ServerPackets.ReadSignature | src/protocol/server/login/login_finished.hpp:46-50 | the signature is read only if bytes remain and the flag byte is nonzero; otherwise it is absent |
| ServerPackets.ReadProperty | src/protocol/server/login/login_finished.hpp:42-50 | a property is the name string, the value string and the optional signature |
| ServerPackets.LoginFinished.constructor | src/protocol/server/login/login_finished.hpp:24 | a new packet has no uuid, no name and no properties |
| ServerPackets.LoginFinished.Read | src/protocol/server/login/login_finished.hpp:36-54 | read takes 16 uuid bytes, the username, a VarInt count, then count properties, which are appended to those already held |
| ServerPackets.LoginFinished.ReadProperties | src/protocol/server/login/login_finished.hpp:40-53 | the for-loop reads count properties and appends each one, stopping at the first failure |
| ServerPackets.RepeatAccumulates | src/protocol/server/login/login_finished.hpp:52 | reading the properties onto an existing list appends to it, with the same end position and the same failures |
| ServerPackets.SecondReadAccumulates | src/protocol/server/login/login_finished.hpp:52 | a second read of LoginFinished keeps the old properties in front of the new ones, because the list is never cleared |
| ServerPackets.SignatureRoundTrip | src/protocol/server/login/login_finished.hpp:46-50 | a written flag and signature, or a zero flag, read back as the optional signature |
| ServerPackets.PropertyThen | src/protocol/server/login/login_finished.hpp:42-50 | a written property followed by more bytes reads back, and the rest starts right after it |
| ServerPackets.SignatureAbsentAtEnd | src/protocol/server/login/login_finished.hpp:46 | a property that ends the buffer, with no flag byte, reads back with no signature |
| ServerPackets.PropertiesRoundTrip | src/protocol/server/login/login_finished.hpp:41-53 | n written properties read back in order, appended to what was there |
| ServerPackets.LoginFinishedRoundTrip | src/protocol/server/login/login_finished.hpp:36-54 | what a server writes after id 0x02 reads back as the uuid, the name and the properties |
| ServerPackets.LoginCompression.constructor | src/protocol/server/login/login_compression.hpp:11 | the default threshold is 0 |
| ServerPackets.LoginCompression.Read | src/protocol/server/login/login_compression.hpp:25-27 | read sets the threshold to one VarInt |
| ServerPackets.LoginCompressionRoundTrip | src/protocol/server/login/login_compression.hpp:25-27 | id 0x03 and a threshold VarInt read back as that threshold |
| ServerPackets.LoginDisconnect.constructor | src/protocol/server/login/login_disconnect.hpp:15 | the default reason is empty |
| ServerPackets.LoginDisconnect.Read | src/protocol/server/login/login_disconnect.hpp:27 | read sets the reason to one length-prefixed string |
| ServerPackets.LoginDisconnectRoundTrip | src/protocol/server/login/login_disconnect.hpp:27 | id 0x00 and a reason string read back as that reason |
| ServerPackets.CustomQuery.constructor | src/protocol/server/login/custom_query.hpp:14 | the default query has id 0, an empty channel and no data |
| ServerPackets.CustomQuery.With | src/protocol/server/login/custom_query.hpp:16-18 | the query holds the given fields |
| ServerPackets.CustomQuery.Serialize | src/protocol/server/login/custom_query.hpp:26-32 | the output starts with id 4, and its length is that of the VarInt message id, the prefixed channel and the prefixed data, plus one |
| ServerPackets.CustomQuery.Read | src/protocol/server/login/custom_query.hpp:34-45 | read takes the message id and the channel, then every remaining byte raw, leaving nothing unread |
| ServerPackets.CustomQuery.ReadRemaining | src/protocol/server/login/custom_query.hpp:39-44 | the byte loop copies the rest of the buffer into the data and moves the cursor to the end |
| ServerPackets.CustomQueryKeepsPrefix | src/protocol/server/login/custom_query.hpp:30 | reading a serialized query gives back the id and the channel, but its data is the length-prefixed data, which differs from the original: the round trip is not the identity |
| ServerPackets.PongResponse.constructor | src/protocol/server/status/pong_response.hpp:11 | the default timestamp is 0 |
| ServerPackets.PongResponse.Read | src/protocol/server/status/pong_response.hpp:25-27 | read takes one big-endian int64, and fails exactly when fewer than 8 bytes remain |
| ServerPackets.PongResponseRoundTrip | src/protocol/server/status/pong_response.hpp:25-27 | a 9-byte pong of id 0x01 reads back as its timestamp |
| Framing.Compress | src/util/compression_util.cpp:11-18 | empty input compresses to empty output |
| Framing.Decompress | src/util/compression_util.cpp:48-90 | empty input decompresses to empty output; a success is what inflate gives and at most eight times the input; an inflated size above that throws |
| Framing.OverEightToOne | src/util/compression_util.cpp:57-81 | data that deflates more than 8:1 fails to decompress although zlib inflates it, so the round trips exclude it |
| Framing.PassThrough | src/network/socket.cpp:104-105 | with a negative threshold, compressIfNeeded and decompressIfNeeded both return the bytes unchanged |
| Framing.MarkerRead | src/network/socket.cpp:128 | a VarInt marker in front of the data reads back, and the rest is the data |
| Framing.BelowThreshold | src/network/socket.cpp:113-116 | below the threshold the output is VarInt(0), one byte, followed by the data verbatim |
| Framing.AtThreshold | src/network/socket.cpp:109-112 | at or above the threshold the output is VarInt(size) followed by the compressed data |
| Framing.MarkerZero | src/network/socket.cpp:130-132 | a 0 marker makes decompressIfNeeded return the remainder verbatim |
| Framing.MarkerSize | src/network/socket.cpp:134-141 | a nonzero marker succeeds exactly when the inflated size equals it, and fails with a size mismatch when inflation succeeds with another size |
| Framing.RoundTrip | src/network/socket.cpp:101-142 | decompressIfNeeded inverts compressIfNeeded for every threshold, provided zlib inverts itself on the data within decompress's 8:1 buffer |
| Cfb8.XorTwice | src/crypto/aes_cipher.cpp:40-51 | xor-ing a byte twice with the same key-stream byte gives it back |
| Cfb8.Shift | src/crypto/aes_cipher.cpp:25-28 | shifting a cipher-text byte into the register keeps its length |
| Cfb8.Encrypt | src/crypto/aes_cipher.cpp:34-43 | encryption yields as many bytes as it is given |
| Cfb8.Decrypt | src/crypto/aes_cipher.cpp:45-54 | decryption yields as many bytes as it is given |
| Cfb8.DecryptEncrypt | src/crypto/aes_cipher.cpp:34-54 | decrypting from the same register inverts encrypting, and both registers end equal |
| Cfb8.EncryptDecrypt | src/crypto/aes_cipher.cpp:34-54 | encrypting from the same register inverts decrypting |
| Cfb8.EncryptChunks | src/crypto/aes_cipher.cpp:40 | the stream cipher keeps its state between calls: encrypting a + b at once is encrypting a, then b from the register a leaves |
| Cfb8.DecryptChunks | src/crypto/aes_cipher.cpp:51 | decrypting a + b at once is decrypting a, then b from the register a leaves |
| Cfb8.RegisterLength | src/crypto/aes_cipher.cpp:25-28 | the register stays 16 bytes long |
| Cfb8.AesCipher.constructor | src/crypto/aes_cipher.cpp:25-28 | both registers start as the key, which is also the initialisation vector |
| Cfb8.AesCipher.EncryptBytes | src/crypto/aes_cipher.cpp:34-43 | encrypt runs the mode from the current encryption register, which moves on; the decryption register is untouched |
| Cfb8.AesCipher.DecryptBytes | src/crypto/aes_cipher.cpp:45-54 | decrypt runs the mode from the current decryption register, which moves on; the encryption register is untouched |
| Cfb8.NewCipher | src/crypto/aes_cipher.cpp:8-14 | the constructor refuses a key that is not exactly 16 bytes long |
| Sockets.AsSizeT | src/network/socket.cpp:54 | the int length converted to size_t: unchanged if non-negative, beyond the largest size otherwise |
| Sockets.VarIntFrom | src/network/socket.cpp:77-88 | recvVarInt never takes more bytes than it is given |
| Sockets.BytesFrom | src/network/socket.cpp:68-75 | recv(length) yields exactly length bytes when it succeeds |
| Sockets.PacketFrom | src/network/socket.cpp:52-56 | recvPacket never takes more bytes than it is given |
| Sockets.Socket.constructor | src/network/socket.cpp:9-11 | a new socket has the threshold -1, no encryption, an empty backlog and nothing sent |
| Sockets.Socket.EnableEncryption | src/network/socket.cpp:27-31 | the cipher is set and encryption is on, and nothing else changes |
| Sockets.Socket.SetCompressionThreshold | src/network/socket.cpp:33-36 | the threshold is set, and nothing else changes |
| Sockets.Socket.SendPacket | src/network/socket.cpp:38-50 | the frame VarInt(len(c)) ++ c, with c = compressIfNeeded(raw), is written, encrypted afterwards only when encryption is on with a cipher |
| Sockets.Socket.FillDecryptedBuffer | src/network/socket.cpp:144-158 | one read from the peer is decrypted into the backlog, or ConnectionClosed when the peer sends nothing more |
| Sockets.Socket.RecvByte | src/network/socket.cpp:58-66 | the next byte of the decrypted stream, taken from the front of the backlog |
| Sockets.Socket.RecvVarInt | src/network/socket.cpp:77-88 | the VarInt at the front of the stream; it fails after more than 5 bytes |
| Sockets.Socket.Recv | src/network/socket.cpp:68-75 | the next length bytes of the stream, in order |
| Sockets.Socket.RecvByteArray | src/network/socket.cpp:96-99 | a VarInt length, then that many bytes |
| Sockets.Socket.RecvString | src/network/socket.cpp:90-94 | a VarInt length, then that many bytes |
| Sockets.Socket.RecvPacket | src/network/socket.cpp:52-56 | exactly the length prefix and length bytes are consumed, then decompressed |
| Sockets.Socket.BuildFrame | src/network/socket.cpp:40-43 | the write buffer compiles to VarInt(len(c)) ++ c |
| Sockets.RefillDecrypted | src/network/socket.cpp:152-157 | decrypting the stream piece by piece into the backlog is decrypting it at once |
| Sockets.PacketRoundTrip | src/network/socket.cpp:38-56 | recvPacket on a frame that sendPacket built gives back the raw packet and consumes exactly the frame |
| Sockets.NegativeLength | src/network/socket.cpp:53-54 | a negative length prefix fails before any payload byte is taken |
| Sockets.SessionRoundTrip | src/network/socket.cpp:38-66 | a packet sent encrypted is received as the original by a peer in step, and the peer stays in step for the next one |
| TcpConnections.TcpConnection.constructor | src/network/tcp/tcp_handler.cpp:13-17 | a new connection is not connected, the threshold starts at -1 and encryption starts disabled |
| TcpConnections.TcpConnection.HandleConnect | src/network/tcp/tcp_handler.cpp:246-269 | the connection is marked connected exactly when the connect succeeded, and nothing else changes |
| TcpConnections.TcpConnection.Disconnect | src/network/tcp/tcp_handler.cpp:67-80 | the connection is no longer connected, and the cipher and threshold stay as they are |
| TcpConnections.TcpConnection.EnableEncryption | src/network/tcp/tcp_handler.cpp:82-89 | the setter assigns the cipher and turns encryption on; nothing turns it off again |
| TcpConnections.TcpConnection.SetCompressionThreshold | src/network/tcp/tcp_handler.cpp:91-96 | the setter assigns the threshold only |
| TcpConnections.TcpConnection.ProcessOutgoingData | src/network/tcp/tcp_handler.cpp:176-186 | the data is compressed, then encrypted when encryption is on, with no length prefix |
| TcpConnections.TcpConnection.Send | src/network/tcp/tcp_handler.cpp:98-119 | send fails with not_connected when there is no connection; otherwise the processed bytes are written |
| TcpConnections.TcpConnection.SendPacket | src/network/tcp/tcp_handler.cpp:121-151 | the order is compress, then the VarInt length prefix, then encrypt; not_connected without a connection |
| TcpConnections.TcpConnection.ProcessIncomingData | src/network/tcp/tcp_handler.cpp:188-203 | all buffered bytes with new ones are decrypted when encryption is on and decompressed; the buffer is left empty, so frames are not split |
| TcpConnections.TcpConnection.HandleReceive | src/network/tcp/tcp_handler.cpp:284-313 | on an error the connection closes and nothing is delivered; otherwise the processed chunk is delivered only when it is non-empty and was processed without an error |
| TcpConnections.OutgoingIncoming | src/network/tcp/tcp_handler.cpp:176-203 | what processOutgoingData produces, processIncomingData at a peer in step turns back into the original data |
| TcpConnections.IncomingKeepsPrefix | src/network/tcp/tcp_handler.cpp:188-203 | a frame from sendPacket arrives with its length prefix still in front, so it never equals the packet it carries |
| Registry.LoginIds | src/protocol/packet_registry.hpp:41-81 | in the Login state, serverbound ids 0 to 4 and clientbound ids 0 to 5 each find their factory in order, and every other id is unknown |
| Registry.ConfigurationIds | src/protocol/packet_registry.hpp:82-99 | in the Configuration state, ids 0 and 1 find the status request/ping (serverbound) and status response/pong (clientbound) factories; every other id is unknown |
| Registry.StatesWithoutEntries | src/protocol/packet_registry.hpp:36-99 | a lookup fails on the state exactly when the state is Handshaking, Status or Play |
| Registry.NoUnknownDirection | src/protocol/packet_registry.hpp:41-99 | both states present file both directions, so a lookup never fails on the direction |
| Registry.FactoriesMatchIds | src/protocol/packet_registry.hpp:43-99 | each factory with a known class builds a packet whose getPacketID() equals the id it is filed under |
| Registry.FactoriesMatchDirections | src/protocol/packet_registry.hpp:41-99 | each factory with a known class, CustomQuery aside, builds a packet whose getDirection() is the direction it is filed under |
| Registry.CustomQueryDirection | src/protocol/server/login/custom_query.hpp:20-24 | CustomQuery is filed under Login/Clientbound id 4 but reports itself as Serverbound |
| PacketHandlers.PacketHandler.constructor | src/handler/packet_handler.hpp:42-46 | the handler starts not running, in the Handshaking state, on the given socket |
| PacketHandlers.PacketHandler.StartReceiving | src/handler/packet_handler.cpp:17-22 | afterwards the handler is running, whether or not it was before |
| PacketHandlers.PacketHandler.StopReceiving | src/handler/packet_handler.cpp:24-29 | afterwards the handler is not running |
| PacketHandlers.PacketHandler.ReceivePacket | src/handler/packet_handler.cpp:44-96 | one frame is taken from the socket's pending bytes and nothing more; the outcome is the dispatch of that frame in the current state |
| PacketHandlers.IdConsumedBeforeRead | src/handler/packet_handler.cpp:55-96 | for a known id, the packet's read starts just past the id VarInt, and a read failure is reported as a read error rather than thrown |
| PacketHandlers.UnknownIdReported | src/handler/packet_handler.cpp:79-85 | an id whose low byte has no factory is reported as unknown with the full id, and no read happens |
| PacketHandlers.LoginUnknownIds | src/handler/packet_handler.cpp:79-85 | in Login every id whose low byte is above 5 is unknown |
| PacketHandlers.IdTruncated | src/handler/packet_handler.cpp:80 | the id 0x102 is looked up as uint8 0x02 and dispatches to LoginFinished |
| PacketHandlers.EmptyDropped | src/handler/packet_handler.cpp:50-53 | an empty frame is dropped before any id is read |
| PacketHandlers.TruncatedIdThrows | src/handler/packet_handler.cpp:55-56 | a frame holding only a continuation byte throws out of receivePacket while reading the id |
| PacketHandlers.HandshakingNeverDispatches | src/handler/packet_handler.cpp:61-69 | in the Handshaking state no packet is ever read: the outcome is a throw, an empty frame or an unknown state, whatever the reads do |
| PacketHandlers.OnlyClientbound | src/handler/packet_handler.cpp:62-72 | in Login every packet read is one of the clientbound login packets |
| Login.AcceptedSequences | src/main.cpp:199-299 | main reaches the acknowledgement on exactly the id sequences (1, 2 or 3) followed by 2 or by 3, 2; a lone login success is not enough |
| Login.Send | src/main.cpp:126-131 | sendPacket appends one frame and changes nothing else on the socket; with compression and encryption off the frame is VarInt(length) ++ packet |
| Login.SendHandshakeAndLogin | src/main.cpp:121-134 | the handshake (protocol 770, the address, port 25565, next state 2) is sent first; the login start follows only when the dashless uuid parses, and a bad uuid throws after the handshake |
| Login.TurnEvents | src/main.cpp:136-159 | the encryption exchange reads no packet and throws nothing, so it neither adds an id nor makes the run unclean |
| Login.LoginReplyShape | src/main.cpp:191-224 | processLoginPacket reads at most one packet id and, when it returns, returns true exactly for ids 1, 2 and 3 |
| Login.SuccessReplyShape | src/main.cpp:237-259 | after a compression packet, true exactly when the next id read is a login success |
| Login.PostReplyShape | src/main.cpp:226-279 | processPostEncryptionPackets returns true exactly when the ids it read are 2, or 3 then 2 |
| Login.SettleWith | src/main.cpp:200-223 | the disconnect reason is read and false returned, a login success is read and true returned, any other id gives false |
| Login.HandleLoginCompression | src/main.cpp:180-189 | the threshold is the VarInt at the reader's cursor and is set on the socket when it reads; nothing else on the socket changes |
| Login.HandleEncryptionRequest | src/main.cpp:136-159 | the server id, public key and verify token are read in order; a read failure throws before anything is sent; otherwise the result is the encryption exchange on those fields |
| Login.NextPacket | src/main.cpp:193-229 | exactly one frame is taken from the stream, and the id is the VarInt at its start |
| Login.ProcessLoginPacket | src/main.cpp:191-224 | the events and the result are those of processLoginPacket on the frame recvPacket returns |
| Login.ReceiveLoginSuccess | src/main.cpp:237-259 | the events and result are those of the inner switch on the next frame |
| Login.ProcessPostEncryptionPackets | src/main.cpp:226-279 | the events and result are those of processPostEncryptionPackets on the pending stream, and nothing is sent |
| Login.FinishLogin | src/main.cpp:297-302 | exit code 0 exactly when the post-encryption ids are accepted without an exception, and then the last event is the LoginAcknowledged packet sent |
| Login.AcceptsAfter | src/main.cpp:293-299 | a run is accepted exactly when the first stage continues and what follows is accepted by the second |
| Login.LoginStages | src/main.cpp:293-306 | exit code 0 exactly when the ids read are accepted and no exception occurred, and then the acknowledgement is the last event |
| Login.Run | src/main.cpp:287-311 | the exit code is 0 or 1, 0 exactly for an accepted, exception-free run ending in the acknowledgement; the first frame on the wire is the handshake |
| Login.Threw | src/main.cpp:308-311 | an exception makes the run unclean, so main returns 1 |
| LoginHandlers.EncryptionOrder | src/handler/stages/login_handler.cpp:52-81 | the join request comes first, the EncryptionResponse is the only packet sent and comes second, and encryption is switched on last, only once everything before it succeeded, with the shared secret |
| LoginHandlers.EncryptionExchange | src/handler/stages/login_handler.cpp:52-81 | the exchange performs exactly that sequence; on success the socket decrypts with a fresh AES/CFB8 cipher keyed and seeded with the secret, on failure the cipher and the encryption flag are untouched |
| LoginHandlers.LoginHandler.DeterminePacket | src/handler/stages/login_handler.cpp:23-50 | an encryption request runs the exchange; a compression packet sets the threshold; a login success fails with invalid_argument exactly when its uuid is not 16 bytes; a disconnect or any other packet succeeds; none but the first two sends anything or changes threshold or encryption |
| LoginHandlers.LoginHandler.HandleLoginAcknowledged | src/handler/stages/login_handler.cpp:89-95 | fails with invalid_argument exactly when the uuid is not 16 bytes, as formatUUIDFromBytes does |
| LoginHandlers.LoginHandler.HandleLoginCompression | src/handler/stages/login_handler.cpp:83-87 | the socket's threshold becomes the packet's, and nothing else on the socket changes |
| LoginHandlers.LoginHandler.HandleLoginDisconnect | src/handler/stages/login_handler.cpp:106-114 | as written: the handler that is receiving keeps running |
| LoginHandlers.LoginHandler.StopOnDisconnect | src/handler/stages/login_handler.cpp:106-114 | as intended: the receiving handler is stopped |
| LoginHandlers.DisconnectWhileReceiving | src/handler/stages/login_handler.cpp:112-113 | a disconnect handled as written leaves a running receive loop running; handled as intended, it stops it |
| Nbt.TypeId | src/datatypes/nbt/nbt_tag_type.hpp:7-21 | every tag's getType() is one of the type bytes 0 to 12, and 0 exactly for End |
| Nbt.CreateTag | src/datatypes/nbt/tags/nbt_factory.hpp:20-51 | createTag yields a tag exactly for the types 0 to 12, and the tag it yields has that type; any other byte gives nullptr |
| Nbt.TagAt | src/datatypes/nbt/nbt_reader.hpp:32-39 | readTag yields no tag exactly for a type with no factory, and then reads nothing; a tag it yields has the requested type |
| Nbt.LessIrreflexive | src/datatypes/nbt/tags/nbt_compound.hpp:12 | the key order of the compound's std::map is irreflexive |
| Nbt.LessTransitive | src/datatypes/nbt/tags/nbt_compound.hpp:12 | the key order is transitive |
| Nbt.LessTotal | src/datatypes/nbt/tags/nbt_compound.hpp:12 | two different keys are always ordered one way or the other |
| Nbt.LookupHas | src/datatypes/nbt/tags/nbt_compound.hpp:73-86 | getTag finds a tag exactly when hasTag holds |
| Nbt.LookupFound | src/datatypes/nbt/tags/nbt_compound.hpp:73-76 | the tag getTag finds is stored under that name |
| Nbt.LookupInsert | src/datatypes/nbt/tags/nbt_compound.hpp:78-80 | after setTag the name maps to the new tag and every other name to what it mapped to before |
| Nbt.LookupRemove | src/datatypes/nbt/tags/nbt_compound.hpp:82 | after removeTag the name maps to nothing and every other name to what it mapped to before |
| Nbt.InsertAscending | src/datatypes/nbt/tags/nbt_compound.hpp:12-80 | setTag keeps the entries in strictly ascending key order |
| Nbt.RemoveAscending | src/datatypes/nbt/tags/nbt_compound.hpp:12-82 | removeTag keeps the entries in strictly ascending key order |
| Nbt.InsertLast | src/datatypes/nbt/tags/nbt_compound.hpp:78-80 | a key above every key present is placed at the end |
| Nbt.DuplicateLastWins | src/datatypes/nbt/tags/nbt_compound.hpp:60-80 | of two writes under one name, the second is the one found |
| Nbt.EntriesAtAscending | src/datatypes/nbt/tags/nbt_compound.hpp:40-63 | what read fills in is in ascending key order |
| Nbt.NameRoundTrip | src/datatypes/nbt/tags/nbt_string.hpp:19-35 | a string written as VarInt length and raw bytes reads back as the same string, just past its bytes |
| Nbt.NonPositiveLengthIsEmpty | src/datatypes/nbt/tags/nbt_string.hpp:28-34 | a length of 0 or less reads as the empty string and consumes only the VarInt |
| Nbt.EmptyName | src/datatypes/nbt/nbt_writer.hpp:11-14 | an empty name is written as the single byte VarInt(0) |
| Nbt.CountRoundTrip | src/datatypes/nbt/tags/nbt_int_array.hpp:22-29 | a non-negative Int32 count reads back as written, 4 bytes on |
| Nbt.NegativeCountRefused | src/datatypes/nbt/tags/nbt_int_array.hpp:29-30 | a negative count is refused with a length error, and so are the byte-, int- and long-array reads it starts |
| Nbt.Int8sRoundTrip | src/datatypes/nbt/tags/nbt_byte_array.hpp:21-34 | n signed bytes written one each read back in order |
| Nbt.Int32sRoundTrip | src/datatypes/nbt/tags/nbt_int_array.hpp:21-34 | n big-endian Int32 values read back in order, 4n bytes on |
| Nbt.Int64sRoundTrip | src/datatypes/nbt/tags/nbt_long_array.hpp:21-34 | n big-endian Int64 values read back in order, 8n bytes on |
| Nbt.Int32sLength | src/datatypes/nbt/tags/nbt_int_array.hpp:21-26 | an int array's elements take 4 bytes each, so the whole payload is 4 + 4n bytes |
| Nbt.ScalarRoundTrip | src/datatypes/nbt/tags/nbt_byte.hpp:19-23 | a Byte, Short, Int, Long, Float or Double payload reads back as the same tag, just past its bytes |
| Nbt.Bits64RoundTrip | src/buffer/write_buffer.cpp:81-89 | the 8 bytes writeDouble writes, most significant first, read back as the same bit pattern |
| Nbt.ArrayRoundTrip | src/datatypes/nbt/tags/nbt_int_array.hpp:21-34 | a byte, int or long array payload reads back as the same array |
| Nbt.ListRoundTrip | src/datatypes/nbt/tags/nbt_list.hpp:29-50 | a list whose elements all have its element type reads back as the same type byte and elements |
| Nbt.ItemsRoundTrip | src/datatypes/nbt/tags/nbt_list.hpp:32-49 | n headerless element payloads read back in order and are appended after what was already read |
| Nbt.EntriesRoundTrip | src/datatypes/nbt/tags/nbt_compound.hpp:27-63 | ascending entries written as type, name, payload and a final End byte read back as the same entries, one byte past the End |
| Nbt.PayloadRoundTrip | src/datatypes/nbt/tags/nbt_compound.hpp:27-63 | every well-formed tag's serialize output, read by the tag of the same type, gives back that tag and stops just past it |
| Nbt.FromStart | src/datatypes/nbt/tags/nbt_compound.hpp:27-63 | a well-formed tag serialized alone reads back from the start |
| Nbt.TagRoundTrip | src/datatypes/nbt/nbt_reader.hpp:32-39 | readTag of a well-formed tag's type over its payload gives back the tag |
| Nbt.NamedTagRoundTrip | src/datatypes/nbt/nbt_writer.hpp:7-17 | readNamedTag of writeNamedTag(name, tag) gives back the name and tag; for End, an empty name |
| Nbt.EndWritesTypeOnly | src/datatypes/nbt/nbt_writer.hpp:9-10 | an End tag is written as its type byte alone, whatever the name |
| Nbt.UnknownListTypeSkipped | src/datatypes/nbt/tags/nbt_list.hpp:43-49 | a list of a type with no factory reads as that type byte with no elements, consuming only the header |
| Nbt.NegativeListLengthRefused | src/datatypes/nbt/tags/nbt_list.hpp:39-41 | a negative list length is refused with a length error |
| Nbt.UnknownEntrySkipped | src/datatypes/nbt/tags/nbt_compound.hpp:57-61 | an entry of a type with no factory is dropped after its name, and its payload is not consumed |
| Nbt.DuplicateNameRead | src/datatypes/nbt/tags/nbt_compound.hpp:57-61 | a compound holding two entries of one name reads as one entry holding the second tag |
| Nbt.FloatByteOrder | src/buffer/read_buffer.hpp:44-52 | as written, readFloat takes back the bytes writeFloat(1.0f) wrote as the pattern 0x0000803F; the model's float read gives back 0x3F800000 |
| Nbt.DoubleByteOrder | src/buffer/read_buffer.hpp:44-52 | the same for writeDouble(1.0) and readDouble |
| NbtTags.ReadName | src/datatypes/nbt/tags/nbt_string.hpp:27-35 | the method reads exactly the name NameAt describes and leaves the cursor where NameAt ends |
| NbtTags.ReadCount | src/datatypes/nbt/tags/nbt_int_array.hpp:29-30 | the method reads exactly the count CountAt describes |
| NbtTags.ReadInt8s | src/datatypes/nbt/tags/nbt_byte_array.hpp:30-33 | the loop reads exactly the n signed bytes Int8sAt describes |
| NbtTags.ReadInt32s | src/datatypes/nbt/tags/nbt_int_array.hpp:30-33 | the loop reads exactly the n Int32 values Int32sAt describes |
| NbtTags.ReadInt64s | src/datatypes/nbt/tags/nbt_long_array.hpp:30-33 | the loop reads exactly the n Int64 values Int64sAt describes |
| NbtTags.ReadScalar | src/datatypes/nbt/tags/nbt_byte.hpp:19-23 | the scalar read is the one ScalarAt describes |
| NbtTags.ReadArray | src/datatypes/nbt/tags/nbt_int_array.hpp:28-34 | the array read is the one ArrayAt describes |
| NbtTags.ReadLeaf | src/datatypes/nbt/tags/nbt_string.hpp:27-35 | every tag read but List and Compound is the one LeafAt describes |
| NbtTags.ReadPayload | src/datatypes/nbt/tags/nbt_factory.hpp:20-51 | tag->read for the tag createTag made is the read PayloadAt describes |
| NbtTags.ReadTag | src/datatypes/nbt/nbt_reader.hpp:32-39 | readTag is createTag followed by read, as TagAt describes |
| NbtTags.ReadNamedTag | src/datatypes/nbt/nbt_reader.hpp:10-30 | readNamedTag reads the type, then for any type but End the name and the tag, as NamedTagAt describes |
| NbtTags.SerializedReadsBack | src/datatypes/nbt/tags/nbt_compound.hpp:27-63 | a well-formed tag's serialize output reads back as the tag |
| NbtTags.NbtCompound.constructor | src/datatypes/nbt/tags/nbt_compound.hpp:15 | a new compound is empty |
| NbtTags.NbtCompound.Serialize | src/datatypes/nbt/tags/nbt_compound.hpp:27-38 | the entries in key order, each as type, name and payload, then End; a well-formed compound reads back from it |
| NbtTags.NbtCompound.Read | src/datatypes/nbt/tags/nbt_compound.hpp:40-63 | the map is cleared first and then holds exactly the entries EntriesAt reads, up to and including the End byte |
| NbtTags.NbtCompound.GetTag | src/datatypes/nbt/tags/nbt_compound.hpp:73-76 | a tag is found exactly when hasTag holds, and it is the one stored under that name |
| NbtTags.NbtCompound.SetTag | src/datatypes/nbt/tags/nbt_compound.hpp:78-80 | the name maps to the new tag, every other name is unchanged, and the order is kept |
| NbtTags.NbtCompound.RemoveTag | src/datatypes/nbt/tags/nbt_compound.hpp:82 | the name maps to nothing, every other name is unchanged, and the order is kept |
| NbtTags.NbtCompound.Clone | src/datatypes/nbt/tags/nbt_compound.hpp:19-25 | a fresh compound with the same entries |
| NbtTags.NbtList.constructor | src/datatypes/nbt/tags/nbt_list.hpp:16 | a new list has the given element type and no elements |
| NbtTags.NbtList.Serialize | src/datatypes/nbt/tags/nbt_list.hpp:29-35 | the element type byte, the Int32 count, then the headerless payloads; a well-formed list reads back from it |
| NbtTags.NbtList.Read | src/datatypes/nbt/tags/nbt_list.hpp:37-50 | the type and elements are exactly what ListAt reads, skipped elements of an unknown type included |
| NbtTags.NbtList.SetListType | src/datatypes/nbt/tags/nbt_list.hpp:61 | only the element type changes |
| NbtTags.NbtList.AddTag | src/datatypes/nbt/tags/nbt_list.hpp:62 | the tag is appended at the end, and the element type is unchanged |
| NbtTags.NbtList.GetTag | src/datatypes/nbt/tags/nbt_list.hpp:64-66 | a tag exactly for an index in range, and it is the element at that index |
| NbtTags.NbtList.Clone | src/datatypes/nbt/tags/nbt_list.hpp:20-27 | a fresh list with the same element type and elements |
| TextComponents.ClickActionName | src/datatypes/text_component/text_component.cpp:183-198 | each click action has its own name, of 8 to 17 bytes |
| TextComponents.ClickActionRoundTrip | src/datatypes/text_component/text_component.cpp:183-213 | a click action's name parses back to the action; a name that parses to anything but open_url is that action's name, and every unknown name parses to open_url |
| TextComponents.HoverActionName | src/datatypes/text_component/text_component.cpp:215-226 | each hover action has its own name, of 9 to 11 bytes |
| TextComponents.HoverActionRoundTrip | src/datatypes/text_component/text_component.cpp:215-237 | a hover action's name parses back to the action; a name that parses to anything but show_text is that action's name |
| TextComponents.AddExtraPlainText | src/datatypes/text_component/text_component.cpp:45-263 | the plain text of a component with an extra added is its plain text followed by the extra's, and a text component's plain text is its text |
| TextComponents.PlainTextsAppend | src/datatypes/text_component/text_component.cpp:259-261 | the extras' plain texts are concatenated in order |
| TextComponents.Serialize | src/datatypes/text_component/text_component.cpp:371-375 | the first byte written is String for a simple component and Compound for any other |
| TextComponents.SerializeWrapped | src/datatypes/text_component/text_component.cpp:371-375 | the same for the corrected toNBT |
| TextComponents.LookupPutAll | src/datatypes/text_component/text_component.cpp:274-366 | after the setTag calls, a key maps to the last tag set under it, or to what it held before |
| TextComponents.KeysDistinct | src/datatypes/text_component/text_component.cpp:274-366 | the sixteen keys toNBT writes are all different |
| TextComponents.FieldNames | src/datatypes/text_component/text_component.cpp:274-366 | toNBT considers the sixteen fields in a fixed order, each under its own key |
| TextComponents.FromFields | src/datatypes/text_component/text_component.cpp:393-428 | fromNBT of the compound toNBT builds restores text, translate, keybind, color and the five style flags, and leaves every other field empty |
| TextComponents.FromToNbt | src/datatypes/text_component/text_component.cpp:268-428 | fromNBT(toNBT(c)) is the text component of c's text for a simple c, and otherwise c reduced to text, translate, keybind, color and the five flags; the extras' encoding does not change this |
| TextComponents.WrappedWellFormed | src/datatypes/text_component/text_component.cpp:268-369 | the corrected toNBT always builds a well-formed tag: ascending keys, and every list element a compound as the list declares |
| TextComponents.SerializeRoundTrip | src/datatypes/text_component/text_component.cpp:371-384 | with the corrected toNBT, deserialize of serialize gives fromNBT(toNBT(c)) and consumes exactly what was written |
| TextComponents.DeserializeAt | src/datatypes/text_component/text_component.cpp:377-384 | deserialize never reads past the data |
| TextComponents.PlainExtraNbt | src/datatypes/text_component/text_component.cpp:350-357 | as written, a component whose one extra is the simple text "a" becomes a compound holding a list declared Compound whose element is a String |
| TextComponents.PlainExtraUnreadable | src/datatypes/text_component/text_component.cpp:350-366 | as written, deserialize of that component's serialize output fails out of bounds; with the corrected toNBT it reads back |
| Urls.FindSeparator | src/network/http/http_handler.cpp:22 | find("://") gives the first position at or after the start where "://" begins, or npos when there is none |
| Urls.FindChar | src/network/http/http_handler.cpp:31-36 | find(c) gives the first index holding c, or npos when c does not occur |
| Urls.ParseFails | src/network/http/http_handler.cpp:22-26 | parseUrl throws exactly when the URL holds no "://" |
| Urls.SchemeIsPrefix | src/network/http/http_handler.cpp:28 | the scheme is the URL up to its first "://" |
| Urls.ParseRecompose | src/network/http/http_handler.cpp:19-46 | every URL parseUrl accepts is scheme://host[:port][path] of its parts; a missing port is 443 for https and 80 otherwise, a missing path the target "/" |
| Urls.ParseCompose | src/network/http/http_handler.cpp:19-46 | scheme://host[:port][path] built from parts parseUrl can give parses back to those parts, with the same defaults |
| Urls.FirstScheme | src/network/http/http_handler.cpp:22 | a scheme free of "://" followed by "://" is found at its end |
| Urls.FirstCharAfter | src/network/http/http_handler.cpp:31-36 | find(c) on a string free of c followed by c finds that c |
| Urls.Get | src/network/http/http_handler.cpp:194-206 | get sends a GET with an empty body |
| Urls.Post | src/network/http/http_handler.cpp:208-221 | post sends a POST with the given body |
| Urls.DispatchSchemes | src/network/http/http_handler.cpp:194-221 | a request is made exactly for the schemes http and https; an unparsable URL and any other scheme throw; https goes to port 443 whatever the URL said, http to the parsed port, with the parsed host and target |
| MemoryPools.MaskQuotient | src/util/memory_pool.hpp:16 | clearing the bits below a power of two leaves a multiple of it, less than one alignment below the value |
| MemoryPools.MaskRoundsDown | src/util/memory_pool.hpp:16 | the masked value is divisible by the alignment and within one alignment below the value |
| MemoryPools.SizeAdd | src/util/memory_pool.hpp:16-23 | size_t addition is addition modulo 2^64 |
| MemoryPools.Rounded | src/util/memory_pool.hpp:16 | the rounded size is a size_t value |
| MemoryPools.RoundsUp | src/util/memory_pool.hpp:16 | rounding gives the least multiple of the alignment at or above the size; in size_t it does so whenever size + alignment - 1 does not wrap |
| MemoryPools.AlignedUnchanged | src/util/memory_pool.hpp:16 | a size that is already a multiple of the alignment is left as it is |
| MemoryPools.WrappedRounding | src/util/memory_pool.hpp:16 | as written, the size 2^64 - 1 with alignment 16 rounds to 0 |
| MemoryPools.MemoryPool.constructor | src/util/memory_pool.hpp:10 | a new pool holds exactly one block and allocates from its start |
| MemoryPools.MemoryPool.AllocateNewBlock | src/util/memory_pool.hpp:35-39 | one block of BlockSize is appended and allocation continues at its start |
| MemoryPools.MemoryPool.Allocate | src/util/memory_pool.hpp:14-25 | as written: when the rounded size does not fit in the rest of the current block a new block is started; the pointer is the place before the allocation, and the offset moves past the rounded size |
| MemoryPools.MemoryPool.Reset | src/util/memory_pool.hpp:27-30 | allocation goes back to the start of the first block and no block is freed |
| MemoryPools.MemoryPool.TotalAllocated | src/util/memory_pool.hpp:32 | the block count times BlockSize is the sum of the blocks' sizes |
| MemoryPools.BlocksTotal | src/util/memory_pool.hpp:32 | the same for any sequence of blocks of one size |
| MemoryPools.TotalNeverDecreases | src/util/memory_pool.hpp:14-39 | allocate and reset never shrink the total allocated; allocate adds at most one block |
| MemoryPools.MemoryPool.AllocateWithin | src/util/memory_pool.hpp:14-25 | as intended: a rounded size larger than a block is refused and nothing changes; otherwise as allocate, and the region returned always lies inside the current block |
| MemoryPools.OversizeOverruns | src/util/memory_pool.hpp:18-23 | as written, allocating 8192 bytes from a pool of 4096-byte blocks returns the start of a fresh block and a region that runs past its end |

## Left out

- Network I/O: connecting, resolving, timeouts and the asynchronous callbacks of the TCP connection are left out. The bytes the server sends are a script the socket is built over, and what the client writes is recorded as a sequence of frames.
- Threads: the receive thread of the packet handler, the mutexes of the socket and the thread manager are left out. `startReceiving` and `stopReceiving` are modelled only by the `running` flag.
- Logging and console prompts are left out. They change no state the model tracks.
- Token acquisition, the token cache files and the HTTP plumbing of authentication are not part of this model. The access token and the profile UUID are parameters.
- RSA, SHA-1 and BIGNUM are left out. RSA encryption, the server hash and the join-session request are function parameters (`LoginHandlers.Services`). The generated shared secret is a parameter, because it comes from a random source.
- AES: the block cipher is an uninterpreted function, and the CFB8 mode over it is modelled.
- zlib: deflate and inflate are function parameters, and inflate's own failures are `Err` results. Decompress's 4x then 8x output buffer is modelled. Framing.RoundTrip and the socket and connection round trips hold only for data that deflates at most 8:1 (`Framing.Inverts`); Framing.OverEightToOne shows that more compressible data fails to come back.
- Framing.Compress: compress2 into a buffer of compressBound bytes fails only when zlib runs out of memory, so the runtime_error it then throws is not modelled.
- Floating point: Float and Double tags hold the 32- and 64-bit patterns writeFloat and writeDouble copy out of the value. No float arithmetic is modelled.
- The `serialize` of each clientbound packet (EncryptionRequest, LoginFinished, LoginCompression, LoginDisconnect, PongResponse) returns an empty vector. It is not modelled beyond that.
- The `read` of each serverbound packet (Handshake, LoginStart, EncryptionResponse, LoginAcknowledged, PingRequest) is a no-op. It is not modelled beyond that.
- `getPacketID` and `getDirection` are modelled once, in `Registry.PacketId` and `Registry.PacketDirection`, for the classes the registry builds.
- The class behind the login CookieRequest factory is not part of this model.
- Status request, status response and CustomQueryAnswer are left out. So are the configuration-stage packets and the status handler. They follow the same pattern as the modelled packets.
- `toString` of the NBT tags and of the text component is left out. It only formats log text.
- The text component's setters and builders are left out, except `text` and `addExtra`. Its `clone` is left out too. Each of these assigns one field.
- `put` and `delete` of the HTTP helper are left out. So is the Beast/TLS request itself: a request is the value `Urls.Request`, holding the scheme, host, port, target, verb and body it would be sent with.
- A stateful read that throws part way leaves fields partly assigned in the C++. The model returns the error and does not track where the fields were left.
- MemoryPools: a block's bytes are not modelled, and neither is the pointer arithmetic on them. A pointer is a block index and an offset.
- MemoryPools.Mask: the bit mask `x & ~(a - 1)` is written as repeated halving, which is equal for a power-of-two alignment. A non-power-of-two alignment is not modelled.
- Urls.DispatchSchemes: an https request always goes to port 443, as makeHttpsRequest resolves it. The parsed port is then unused, as in the source.
- WriteBuffers.WriteBuffer.WriteVarInt: shifts the value as a uint32, not with the signed `>>=` as written (see Findings).
- BufferUtils.BufferUtil.WriteVarInt: shifts the value as a uint32, not with the signed `>>=` as written (see Findings).
- BufferUtils.BufferUtil.ReadString: refuses a negative length, which the source's wrapped size_t check lets through (see Findings).
- BufferUtils.BufferUtil.ReadByteArray: refuses a negative length, which the source's wrapped size_t check lets through (see Findings).
- FastSerializers.FastDeserializer.ReadString: refuses a negative length, which the source's wrapped size_t check lets through (see Findings).
- FastSerializers.FastStringAt: the same refusal of a negative length.
- ReadBuffers.ReadBuffer.ReadString: refuses a negative length, which the source's wrapped size_t check lets through (see Findings).
- ReadBuffers.ReadBuffer.ReadByteArray: the same refusal of a negative length.
- The string round trips (Codec.PrefixedRoundTrip and the packet round trips over it) are stated for fields shorter than 2^31 bytes: from there on the int32 cast of the size wraps, so the prefix is not the size and nothing reads the field back. The writers themselves take any size.
- The write_buffer.hpp header declares a different layout (`buffer_`, `capacity_`, an inline `compile`) than write_buffer.cpp uses. The model follows the .cpp.

## Findings

| source | as written | input that shows it | evidently intended | confidence | as-written member | corrected member |
|---|---|---|---|---|---|---|
| src/buffer/write_buffer.cpp:91-99, src/util/buffer_util.cpp:16-24 | `writeVarInt` shifts the signed value with `>>=`, so a negative value stays negative and the loop never reaches 0 | any negative int32, e.g. -1: every pass emits 0xFF and keeps -1 | shift the value as uint32, as FastSerializer does, giving 5 bytes for a negative value | high, not executed | VarInts.SignedNeverStops | WriteBuffers.WriteBuffer.WriteVarInt |
| src/buffer/read_buffer.cpp:117-129 | the VarInt length of `readString`/`readByteArray` is checked as `readPos_ + len` in size_t, so a negative length wraps and passes the check | FF FF FF FF 0F (length -1) after 5 bytes: 5 + (2^64 - 1) wraps to 4, which is within the buffer | a negative length is refused | high, not executed | Codec.NegativeLengthPassesCheck | Codec.PrefixedRoundTrip |
| src/util/buffer_util.cpp:74-87 | `readString` checks `readPos_ + length` and `readByteArray` passes the int length to `readBytes(size_t)`, both in size_t, so a negative length wraps and passes | FF FF FF FF 0F (length -1) with the cursor at 5 | a negative length is refused | high, not executed | Codec.NegativeLengthPassesCheck | BufferUtils.StringRoundTrip |
| src/util/fast_serializer.hpp:130-139 | `readString` checks `pos_ + length` with the int32 length converted to size_t, so a negative length wraps and passes | FF FF FF FF 0F (length -1) with the cursor at 5 | a negative length is refused | high, not executed | FastSerializers.NegativeLengthPassesCheck | FastSerializers.FastStringRoundTrip |
| src/util/memory_pool.hpp:18-23 | a rounded size larger than BlockSize starts a fresh block and is placed at its start anyway | allocate(8192, 16) on a pool of 4096-byte blocks returns a region of 8192 bytes in a 4096-byte block | refuse such a size (std::bad_alloc) | high, not executed | MemoryPools.OversizeOverruns | MemoryPools.MemoryPool.AllocateWithin |
| src/util/memory_pool.hpp:16 | `size + alignment - 1` is computed in size_t and wraps near 2^64 | allocate(2^64 - 1, 16) rounds the size to 0 | round without wrap-around, which refuses such a size | medium, not executed | MemoryPools.WrappedRounding | MemoryPools.RoundsUp |
| src/handler/stages/login_handler.cpp:112-113 | `handleLoginDisconnect` builds a new PacketHandler and stops that one, so the handler that is receiving keeps running | a LoginDisconnect while a handler is receiving | stop the handler that receives | high, not executed | LoginHandlers.DisconnectWhileReceiving | LoginHandlers.LoginHandler.StopOnDisconnect |
| src/buffer/read_buffer.hpp:44-52 | `readFloat`/`readDouble` memcpy the bytes in host order, but `writeFloat`/`writeDouble` write them most significant first | on a little-endian host, writeFloat(1.0f) writes 3F 80 00 00 and readFloat gives the pattern 0x0000803F back | read the bit pattern big-endian | medium, not executed | Nbt.FloatByteOrder | Nbt.PayloadRoundTrip |
| src/datatypes/text_component/text_component.cpp:350-366 | extras and arguments go into a list declared Compound, but a simple child's `toNBT` is a String | a component whose only extra is the text "a": its serialize output cannot be read back | write every child as a compound | medium, not executed | TextComponents.PlainExtraUnreadable | TextComponents.SerializeRoundTrip |
