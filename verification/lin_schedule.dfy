/** The LIN schedule table: a list of responses, searched from its oldest entry. */
module LinSchedule {
  import opened Words

  const DIR_MASTER_RECEIVE: octet := 2
  const DIR_SLAVE_TRANSMIT: octet := 3
  const DIR_SLAVE_RECEIVE: octet := 4
  const MAX_PID: nat := 0x3F

  datatype Entry = Entry(channel: octet, pid: octet, dir: octet, dl: octet, data: seq<byte>)

  predicate Matches(e: Entry, channel: nat, pid: nat) {
    e.channel == channel && e.pid == pid
  }

  /** The oldest entry for a channel and identifier. */
  function FirstMatch(table: seq<Entry>, channel: nat, pid: nat): Option<Entry> {
    if table == [] then None
    else if Matches(table[0], channel, pid) then Some(table[0])
    else FirstMatch(table[1..], channel, pid)
  }

  /** The table without that entry, and whether there was one. */
  function Delete(table: seq<Entry>, channel: nat, pid: nat): (bool, seq<Entry>) {
    if table == [] then (false, [])
    else if Matches(table[0], channel, pid) then (true, table[1..])
    else var (found, rest) := Delete(table[1..], channel, pid); (found, [table[0]] + rest)
  }

  /** All entries for a channel and identifier, oldest first: the table as a multimap. */
  function EntriesFor(table: seq<Entry>, channel: nat, pid: nat): seq<Entry> {
    if table == [] then []
    else (if Matches(table[0], channel, pid) then [table[0]] else []) + EntriesFor(table[1..], channel, pid)
  }

  lemma {:induction false} FirstMatchIsOldest(table: seq<Entry>, channel: nat, pid: nat)
    ensures var all := EntriesFor(table, channel, pid);
            FirstMatch(table, channel, pid) == if all == [] then None else Some(all[0])
  {
    if table != [] {
      FirstMatchIsOldest(table[1..], channel, pid);
    }
  }

  /** Adding an entry puts it last for its key and changes no other key. */
  lemma {:induction false} AddIsAppend(table: seq<Entry>, e: Entry, channel: nat, pid: nat)
    ensures EntriesFor(table + [e], channel, pid)
            == EntriesFor(table, channel, pid) + if Matches(e, channel, pid) then [e] else []
  {
    hide Matches;
    var t := table + [e];
    if table == [] {
      assert t == [e] && t[1..] == [];
    } else {
      assert t[0] == table[0] && t[1..] == table[1..] + [e];
      AddIsAppend(table[1..], e, channel, pid);
      var head := if Matches(table[0], channel, pid) then [table[0]] else [];
      var last := if Matches(e, channel, pid) then [e] else [];
      var rest := EntriesFor(table[1..], channel, pid);
      assert head + (rest + last) == (head + rest) + last;
    }
  }

  /** Deleting removes the oldest entry of the key and changes no other key; it fails exactly
      when the key has no entry. */
  lemma {:induction false} DeleteIsPop(table: seq<Entry>, channel: nat, pid: nat, c: nat, p: nat)
    ensures var (found, rest) := Delete(table, channel, pid);
            && (found <==> EntriesFor(table, channel, pid) != [])
            && EntriesFor(rest, c, p)
               == (if c == channel && p == pid && found then EntriesFor(table, c, p)[1..] else EntriesFor(table, c, p))
            && (!found ==> rest == table)
  {
    if table != [] {
      DeleteIsPop(table[1..], channel, pid, c, p);
      var (found, rest) := Delete(table[1..], channel, pid);
      if !Matches(table[0], channel, pid) {
        assert ([table[0]] + rest)[1..] == rest;
        assert [table[0]] + table[1..] == table;
      }
    }
  }
}
