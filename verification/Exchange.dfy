/** A client and the server, with both sides' I/O cut up in any way. */
module Exchange {
  import opened Bytes
  import opened Streams
  import opened ServerSpec
  import P = Pool
  import Client
  import Server
  import Wire

  /** The server's half: all of the request is read, and all of the reply is written. */
  method Answer(pool: P.Pool, dest: CString, io: seq<Event>) returns (out: seq<byte>)
    requires pool.Valid() && 1 <= |dest| <= Wire.DEST_MAX && !Faulty(io)
    modifies pool, pool.world, pool.cells
    ensures pool.Valid() && fresh(pool.cells - old(pool.cells))
    ensures var r := Serve(pool.E(), old(pool.model), Wire.Request(dest));
            pool.model == r.pool && out == if r.reply.Some? then r.reply.value else []
  {
    var conn := new Conn(Wire.Request(dest), io);
    Server.HandleConn(conn, pool);
    assert conn.input[0..conn.pos] == conn.input by {
      RequestAsks(dest);
      assert conn.input[0..] == conn.input;
    }
    out := conn.output;
  }

  /**
   For every schedule of partial and interrupted reads and writes in which no call fails,
   the client ends up with the DER, length, group and 0/1 flag of the session the pool gave
   up, or with the explicit refusal; and it consumes exactly the bytes the server sent.
   */
  method Ask(pool: P.Pool, dest: CString, serverIo: seq<Event>, clientIo: seq<Event>)
    returns (a: Wire.Answer, sent: nat, read: nat)
    requires pool.Valid() && 1 <= |dest| <= Wire.DEST_MAX
    requires !Faulty(serverIo) && !Faulty(clientIo)
    modifies pool, pool.world, pool.cells
    ensures pool.Valid() && fresh(pool.cells - old(pool.cells)) && read == sent
    ensures var r := Serve(pool.E(), old(pool.model), Wire.Request(dest));
            pool.model == r.pool && ClientSees(pool.E(), old(pool.model), dest, r.block, a)
  {
    ghost var st, ops := pool.model, pool.history;
    var bytes := Answer(pool, dest, serverIo);
    var client := new Conn(bytes, clientIo);
    a := Client.UdsGet(client, dest, 64, true);
    sent, read := |bytes|, client.pos;
    ghost var r := Serve(pool.E(), st, Wire.Request(dest));
    assert read == sent && ClientSees(pool.E(), st, dest, r.block, a) by {
      EndToEnd(pool.E(), ops, dest);
      assert client.input[0..] == client.input == r.reply.value;
    }
  }
}
