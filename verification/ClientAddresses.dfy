/**
 * The allocation of client addresses on a WireGuard server
 * (client/configurators/wireguard_configurator.cpp): the next number is read from the text of
 * the server's configuration, and the new peer is appended to it.
 */
module ClientAddresses {
  import opened Decimals
  import opened Texts

  const ALLOWED := "AllowedIPs = "
  const SINGLE := "/32"

  // ------------------------------------------------------------ text

  /** QString::replace with nothing: every occurrence is cut out, left to right. */
  function Cut(s: string, pattern: string): string
    requires pattern != ""
    decreases |s|
  {
    if s == "" then ""
    else if pattern <= s then Cut(s[|pattern|..], pattern)
    else [s[0]] + Cut(s[1..], pattern)
  }

  predicate Lacks(s: string, c: char) { forall i :: 0 <= i < |s| ==> s[i] != c }

  /** A stretch without the pattern's first character is left alone. */
  lemma {:induction false} CutSkips(a: string, b: string, pattern: string)
    requires pattern != "" && Lacks(a, pattern[0])
    ensures Cut(a + b, pattern) == a + Cut(b, pattern)
  {
    if a == "" {
      assert a + b == b;
    } else {
      var s := a + b;
      assert s[0] == a[0] != pattern[0];
      assert s[1..] == a[1..] + b;
      CutSkips(a[1..], b, pattern);
      assert [a[0]] + (a[1..] + Cut(b, pattern)) == a + Cut(b, pattern);
    }
  }

  lemma CutHere(pattern: string, b: string)
    requires pattern != ""
    ensures Cut(pattern + b, pattern) == Cut(b, pattern)
  {
    assert pattern <= pattern + b && (pattern + b)[|pattern|..] == b;
  }

  /** The first non-empty part of a split at `c`; empty if there is none. */
  function FirstPart(s: string, c: char): string {
    if s == "" then "" else if s[0] == c then FirstPart(s[1..], c) else UpTo(s, c)
  }

  function UpTo(s: string, c: char): string {
    if s == "" || s[0] == c then "" else [s[0]] + UpTo(s[1..], c)
  }

  lemma {:induction false} UpToStops(a: string, b: string, c: char)
    requires Lacks(a, c) && (b == "" || b[0] == c)
    ensures UpTo(a + b, c) == a
  {
    if a == "" {
      assert a + b == b;
    } else {
      assert (a + b)[0] == a[0] && (a + b)[1..] == a[1..] + b;
      UpToStops(a[1..], b, c);
    }
  }

  /** The last part of a split at `c`, empty parts included. */
  function LastPart(s: string, c: char): string {
    if s == "" || s[|s| - 1] == c then "" else LastPart(s[..|s| - 1], c) + [s[|s| - 1]]
  }

  lemma {:induction false} LastPartIs(a: string, d: string, c: char)
    requires Lacks(d, c) && (a == "" || a[|a| - 1] == c)
    ensures LastPart(a + d, c) == d
    decreases d
  {
    if d == "" {
      assert a + d == a;
    } else {
      var n := |d| - 1;
      assert (a + d)[..|a + d| - 1] == a + d[..n];
      LastPartIs(a, d[..n], c);
      assert d[..n] + [d[n]] == d;
    }
  }

  // ------------------------------------------------------------ reading the next number

  /** What one line of the listing contributes: its first address. */
  function AddressOf(line: string): string { Trimmed(FirstPart(Cut(Cut(line, ALLOWED), SINGLE), ',')) }

  function OctetOf(line: string): nat { ToInt(LastPart(AddressOf(line), '.')) }

  datatype Next = PoolExhausted | Number(n: nat)

  function NextNumber(lines: seq<string>): Next {
    if lines == [] then Number(2)
    else if OctetOf(lines[|lines| - 1]) + 1 > 254 then PoolExhausted
    else Number(OctetOf(lines[|lines| - 1]) + 1)
  }

  /** The reading half of prepareWireguardConfig on the lines of the listing. */
  method ReadNextNumber(lines: seq<string>) returns (next: Next)
    ensures next == NextNumber(lines)
  {
    var vpnIps: seq<string> := [];
    for i := 0 to |lines|
      invariant |vpnIps| == i && forall k :: 0 <= k < i ==> vpnIps[k] == AddressOf(lines[k])
    {
      vpnIps := vpnIps + [Trimmed(FirstPart(Cut(Cut(lines[i], ALLOWED), SINGLE), ','))];
    }
    if vpnIps == [] { return Number(2); }
    var n := ToInt(LastPart(vpnIps[|vpnIps| - 1], '.')) + 1;
    if n > 254 { return PoolExhausted; }
    return Number(n);
  }

  // ------------------------------------------------------------ the server's file

  /** The network part of the subnet address, with its dot, or nothing. */
  predicate NetworkPart(net: string) {
    && (forall i :: 0 <= i < |net| ==> '0' <= net[i] <= '9' || net[i] == '.')
    && (net == "" || (net[|net| - 1] == '.' && net[0] != '.'))
  }

  /** A peer: its number, and whatever a user has written behind the address by hand. */
  datatype Peer = Peer(key: string, psk: string, octet: nat, extra: string)

  predicate ByHand(extra: string) { extra == "" || extra[0] == ',' }

  function AllowedLine(net: string, p: Peer): string { ALLOWED + (net + Decimal(p.octet)) + (SINGLE + p.extra) }

  /** The four lines that are appended for a client, and the blank one. */
  function Block(net: string, p: Peer): seq<string> {
    ["[Peer]", "PublicKey = " + p.key, "PresharedKey = " + p.psk, AllowedLine(net, p), ""]
  }

  function FileLines(header: seq<string>, net: string, peers: seq<Peer>): seq<string> {
    if peers == [] then header else FileLines(header, net, peers[..|peers| - 1]) + Block(net, peers[|peers| - 1])
  }

  predicate Mentions(line: string, word: string) {
    word <= line || (line != "" && Mentions(line[1..], word))
  }

  lemma {:induction false} TooShort(line: string, word: string)
    requires |line| < |word|
    ensures !Mentions(line, word)
  {
    if line != "" { TooShort(line[1..], word); }
  }

  /** grep. */
  function Grep(lines: seq<string>, word: string): seq<string> {
    if lines == [] then [] else
      Grep(lines[..|lines| - 1], word) + if Mentions(lines[|lines| - 1], word) then [lines[|lines| - 1]] else []
  }

  const WORD := "AllowedIPs"

  /** Neither the server's own section nor the keys mention the word that is searched for. */
  predicate Plain(header: seq<string>, peers: seq<Peer>) {
    && (forall i :: 0 <= i < |header| ==> !Mentions(header[i], WORD))
    && (forall i :: 0 <= i < |peers| ==> PlainPeer(peers[i]))
  }

  predicate PlainKeys(key: string, psk: string) {
    !Mentions("PublicKey = " + key, WORD) && !Mentions("PresharedKey = " + psk, WORD)
  }

  predicate PlainPeer(p: Peer) { PlainKeys(p.key, p.psk) && ByHand(p.extra) }

  predicate Dotted(ip: string) { ip != "" && forall i :: 0 <= i < |ip| ==> '0' <= ip[i] <= '9' || ip[i] == '.' }

  /** The address in front of a line survives the cutting and splitting. */
  lemma AddressReadBack(ip: string, extra: string)
    requires Dotted(ip) && ByHand(extra)
    ensures AddressOf(ALLOWED + (ip + (SINGLE + extra))) == ip
  {
    CutHere(ALLOWED, ip + (SINGLE + extra));
    var extra1 := AfterAddress(ip, extra);
    var extra2 := AfterSingle(ip, extra1);
    FirstIs(ip, extra2);
  }

  lemma FirstIs(ip: string, extra: string)
    requires Dotted(ip) && ByHand(extra)
    ensures Trimmed(FirstPart(ip + extra, ',')) == ip
  {
    UpToStops(ip, extra, ',');
    assert (ip + extra)[0] == ip[0];
  }

  /** A generated line, edited by hand or not, is read back as its own number. */
  lemma OctetReadBack(net: string, p: Peer)
    requires NetworkPart(net) && ByHand(p.extra)
    ensures OctetOf(AllowedLine(net, p)) == p.octet
  {
    var ip := net + Decimal(p.octet);
    assert Dotted(ip);
    assert AllowedLine(net, p) == ALLOWED + (ip + (SINGLE + p.extra));
    AddressReadBack(ip, p.extra);
    LastPartIs(net, Decimal(p.octet), '.');
    ReadsBack(p.octet);
  }

  lemma AfterAddress(ip: string, extra: string) returns (rest: string)
    requires ByHand(extra) && Dotted(ip)
    ensures Cut(ip + (SINGLE + extra), ALLOWED) == ip + (SINGLE + rest) && ByHand(rest)
  {
    rest := Cut(extra, ALLOWED);
    assert Lacks(ip + SINGLE, 'A');
    CutSkips(ip + SINGLE, extra, ALLOWED);
    assert ip + (SINGLE + extra) == ip + SINGLE + extra;
    CommaStays(extra, ALLOWED);
    assert ip + SINGLE + rest == ip + (SINGLE + rest);
  }

  lemma AfterSingle(ip: string, extra: string) returns (rest: string)
    requires ByHand(extra) && Dotted(ip)
    ensures Cut(ip + (SINGLE + extra), SINGLE) == ip + rest && ByHand(rest)
  {
    rest := Cut(extra, SINGLE);
    CutSkips(ip, SINGLE + extra, SINGLE);
    CutHere(SINGLE, extra);
    CommaStays(extra, SINGLE);
  }

  lemma CommaStays(extra: string, pattern: string)
    requires ByHand(extra) && pattern != "" && pattern[0] != ','
    ensures ByHand(Cut(extra, pattern))
  {
  }

  lemma {:induction false} GrepConcat(a: seq<string>, b: seq<string>, word: string)
    ensures Grep(a + b, word) == Grep(a, word) + Grep(b, word)
    decreases b
  {
    if b == [] {
      assert a + b == a;
    } else {
      var n := |b| - 1;
      GrepConcat(a, b[..n], word);
      assert (a + b)[..|a + b| - 1] == a + b[..n];
    }
  }

  function AllowedLines(net: string, peers: seq<Peer>): seq<string> {
    if peers == [] then [] else AllowedLines(net, peers[..|peers| - 1]) + [AllowedLine(net, peers[|peers| - 1])]
  }

  lemma GrepFive(a: string, b: string, c: string, x: string, d: string)
    requires !Mentions(a, WORD) && !Mentions(b, WORD) && !Mentions(c, WORD) && Mentions(x, WORD) && !Mentions(d, WORD)
    ensures Grep([a, b, c, x, d], WORD) == [x]
  {
    GrepNothing([a, b, c]);
    GrepConcat([a, b, c], [x], WORD);
    GrepConcat([a, b, c, x], [d], WORD);
    GrepNothing([d]);
    assert [a, b, c] + [x] == [a, b, c, x] && [a, b, c, x] + [d] == [a, b, c, x, d];
    assert [x][..0] == [];
  }

  /** Of an appended block, the search finds exactly the address line. */
  lemma GrepBlock(lines: seq<string>, net: string, p: Peer)
    requires PlainPeer(p)
    ensures Grep(lines + Block(net, p), WORD) == Grep(lines, WORD) + [AllowedLine(net, p)]
  {
    TooShort("[Peer]", WORD);
    TooShort("", WORD);
    assert WORD <= ALLOWED <= AllowedLine(net, p);
    GrepFive("[Peer]", "PublicKey = " + p.key, "PresharedKey = " + p.psk, AllowedLine(net, p), "");
    GrepConcat(lines, Block(net, p), WORD);
  }

  lemma {:induction false} GrepNothing(lines: seq<string>)
    requires forall i :: 0 <= i < |lines| ==> !Mentions(lines[i], WORD)
    ensures Grep(lines, WORD) == []
  {
    if lines != [] { GrepNothing(lines[..|lines| - 1]); }
  }

  lemma PlainPrefix(header: seq<string>, peers: seq<Peer>, n: nat)
    requires Plain(header, peers) && n < |peers|
    ensures Plain(header, peers[..n]) && PlainPeer(peers[n])
  {
  }

  /** What the search finds in the whole file: one line for every peer, in order. */
  lemma {:induction false} GrepFile(header: seq<string>, net: string, peers: seq<Peer>)
    requires Plain(header, peers)
    ensures Grep(FileLines(header, net, peers), WORD) == AllowedLines(net, peers)
  {
    if peers == [] {
      GrepNothing(header);
    } else {
      var n := |peers| - 1;
      var before, last := peers[..n], peers[n];
      PlainPrefix(header, peers, n);
      GrepFile(header, net, before);
      var lines := FileLines(header, net, before);
      GrepBlock(lines, net, last);
      calc {
        Grep(FileLines(header, net, peers), WORD);
        Grep(lines + Block(net, last), WORD);
        Grep(lines, WORD) + [AllowedLine(net, last)];
        AllowedLines(net, before) + [AllowedLine(net, last)];
        AllowedLines(net, peers);
      }
    }
  }

  /** The number read from the file: one more than the last peer's, up to 254. */
  lemma NextOfFile(header: seq<string>, net: string, peers: seq<Peer>)
    requires NetworkPart(net) && Plain(header, peers)
    ensures NextNumber(Grep(FileLines(header, net, peers), WORD))
         == if peers == [] then Number(2)
            else if peers[|peers| - 1].octet >= 254 then PoolExhausted else Number(peers[|peers| - 1].octet + 1)
  {
    GrepFile(header, net, peers);
    if peers != [] { OctetReadBack(net, peers[|peers| - 1]); }
  }

  // ------------------------------------------------------------ runs

  /** A client is created, a peer is removed, or a user edits a line by hand. */
  datatype Op = Create(key: string, psk: string) | Remove(index: nat) | Edit(index: nat, extra: string)

  predicate PlainOp(op: Op) {
    match op
    case Create(key, psk) => PlainKeys(key, psk)
    case Remove(_) => true
    case Edit(_, extra) => ByHand(extra)
  }

  function Apply(header: seq<string>, net: string, peers: seq<Peer>, op: Op): seq<Peer> {
    match op
    case Create(key, psk) =>
      (match NextNumber(Grep(FileLines(header, net, peers), WORD))
       case PoolExhausted => peers
       case Number(n) => peers + [Peer(key, psk, n, "")])
    case Remove(i) => if i < |peers| then peers[..i] + peers[i + 1..] else peers
    case Edit(i, extra) => if i < |peers| then peers[i := peers[i].(extra := extra)] else peers
  }

  function Run(header: seq<string>, net: string, ops: seq<Op>): seq<Peer> {
    if ops == [] then [] else Apply(header, net, Run(header, net, ops[..|ops| - 1]), ops[|ops| - 1])
  }

  /** Strictly increasing numbers between 2 and 254. */
  predicate InOrder(peers: seq<Peer>) {
    && (forall i :: 0 <= i < |peers| ==> 2 <= peers[i].octet <= 254)
    && (forall i, j :: 0 <= i < j < |peers| ==> peers[i].octet < peers[j].octet)
  }

  lemma AppendKeeps(header: seq<string>, peers: seq<Peer>, p: Peer)
    requires Plain(header, peers) && InOrder(peers) && PlainPeer(p) && 2 <= p.octet <= 254
    requires peers != [] ==> peers[|peers| - 1].octet < p.octet
    ensures Plain(header, peers + [p]) && InOrder(peers + [p])
  {
  }

  lemma RemoveKeeps(header: seq<string>, peers: seq<Peer>, i: nat)
    requires Plain(header, peers) && InOrder(peers) && i < |peers|
    ensures Plain(header, peers[..i] + peers[i + 1..]) && InOrder(peers[..i] + peers[i + 1..])
  {
    var r := peers[..i] + peers[i + 1..];
    assert forall k :: 0 <= k < |r| ==> r[k] == peers[if k < i then k else k + 1];
  }

  lemma ApplyKeepsOrder(header: seq<string>, net: string, peers: seq<Peer>, op: Op)
    requires NetworkPart(net) && Plain(header, peers) && InOrder(peers) && PlainOp(op)
    ensures Plain(header, Apply(header, net, peers, op)) && InOrder(Apply(header, net, peers, op))
  {
    match op
    case Create(key, psk) =>
      NextOfFile(header, net, peers);
      var next := NextNumber(Grep(FileLines(header, net, peers), WORD));
      if next.Number? { AppendKeeps(header, peers, Peer(key, psk, next.n, "")); }
    case Remove(i) =>
      if i < |peers| { RemoveKeeps(header, peers, i); }
    case Edit(_, _) =>
  }

  /**
   * Over every history of creations, removals and edits the numbers in the file stay strictly
   * increasing between 2 and 254, so that no two peers share an address.
   */
  lemma {:induction false} AddressesStayDistinct(header: seq<string>, net: string, ops: seq<Op>)
    requires NetworkPart(net) && Plain(header, []) && forall i :: 0 <= i < |ops| ==> PlainOp(ops[i])
    ensures var peers := Run(header, net, ops);
            Plain(header, peers) && InOrder(peers)
            && forall i, j :: 0 <= i < j < |peers| ==> net + Decimal(peers[i].octet) != net + Decimal(peers[j].octet)
  {
    if ops != [] {
      AddressesStayDistinct(header, net, ops[..|ops| - 1]);
      ApplyKeepsOrder(header, net, Run(header, net, ops[..|ops| - 1]), ops[|ops| - 1]);
    }
    var peers := Run(header, net, ops);
    forall i, j | 0 <= i < j < |peers| ensures net + Decimal(peers[i].octet) != net + Decimal(peers[j].octet) {
      var a, b := net + Decimal(peers[i].octet), net + Decimal(peers[j].octet);
      assert a[|net|..] == Decimal(peers[i].octet) && b[|net|..] == Decimal(peers[j].octet);
      ReadsBack(peers[i].octet);
      ReadsBack(peers[j].octet);
    }
  }
}
