/** The IP allow-list: `parseAllowedIPs`, which turns configuration strings
    into networks and never fails, and `isIPAllowed`. */
module AllowList {
  import opened Wrappers
  import opened Text
  import opened IpNet
  import opened NetSyntax

  /** One trimmed, non-empty allow-list item: a CIDR if it parses as one,
      else a bare address widened to a host network (/32 for IPv4, /128 for
      IPv6), else nothing. */
  function ParsePart(syn: Syntax, part: string): (r: Option<Net>)
    ensures r.Some? <==> syn.parseCIDR(part).Some? || syn.parseIP(part).Some?
    ensures syn.parseCIDR(part).Some? ==> r == syn.parseCIDR(part)
    ensures Valid(syn) && r.Some? ==> WellFormed(r.value)
    ensures Valid(syn) && syn.parseCIDR(part).None? && syn.parseIP(part).Some? ==>
              var ip := syn.parseIP(part).value;
              && r.value.prefix == (if |ip| == 4 then 32 else 128)
              && forall x :: Contains(r.value, x) <==> x == ip
  {
    match syn.parseCIDR(part)
    case Some(n) => Some(n)
    case None =>
      match syn.parseIP(part)
      case None => None
      case Some(ip) =>
        var bits := if |ip| == 4 then 32 else 128;
        assert Valid(syn) ==> IsAddress(ip) && Net(ip, bits) == HostNet(ip);
        Some(Net(ip, bits))
  }

  /** What one raw comma-separated piece contributes. */
  function PieceNets(syn: Syntax, piece: string): seq<Net> {
    var t := TrimSpace(piece);
    if t == "" then []
    else
      match ParsePart(syn, t)
      case None => []
      case Some(n) => [n]
  }

  /** The inner loop over the comma-separated pieces of one entry. */
  function EntryNets(syn: Syntax, pieces: seq<string>): seq<Net>
    decreases |pieces|
  {
    if |pieces| == 0 then [] else PieceNets(syn, pieces[0]) + EntryNets(syn, pieces[1..])
  }

  /** Every comma-separated piece of every entry, in configuration order. */
  function Pieces(raw: seq<string>): seq<string>
    decreases |raw|
  {
    if |raw| == 0 then [] else Split(raw[0], ',') + Pieces(raw[1..])
  }

  /** `piece` is a configured item that parses to `n`. */
  predicate Yields(syn: Syntax, piece: string, n: Net) {
    PieceNets(syn, piece) == [n]
  }

  /** `parseAllowedIPs`: one network for each piece that parses, in order.
      Pieces that are blank or do not parse are skipped; nothing fails. */
  function ParseAllowedIPs(syn: Syntax, raw: seq<string>): (r: seq<Net>)
    ensures r == EntryNets(syn, Pieces(raw))
    ensures forall n :: n in r <==> exists p :: p in Pieces(raw) && Yields(syn, p, n)
    decreases |raw|
  {
    if |raw| == 0 then []
    else
      var r := EntryNets(syn, Split(raw[0], ',')) + ParseAllowedIPs(syn, raw[1..]);
      EntryNetsAppend(syn, Split(raw[0], ','), Pieces(raw[1..]));
      EntryNetsMembers(syn, Pieces(raw));
      r
  }

  lemma {:induction false} EntryNetsAppend(syn: Syntax, a: seq<string>, b: seq<string>)
    ensures EntryNets(syn, a + b) == EntryNets(syn, a) + EntryNets(syn, b)
    decreases |a|
  {
    if |a| == 0 {
      assert a + b == b;
    } else {
      assert (a + b)[0] == a[0];
      assert (a + b)[1..] == a[1..] + b;
      EntryNetsAppend(syn, a[1..], b);
    }
  }

  lemma {:induction false} EntryNetsMembers(syn: Syntax, pieces: seq<string>)
    ensures forall n :: n in EntryNets(syn, pieces) <==> exists p :: p in pieces && Yields(syn, p, n)
    decreases |pieces|
  {
    if |pieces| > 0 {
      EntryNetsMembers(syn, pieces[1..]);
      forall n ensures n in EntryNets(syn, pieces) <==> exists p :: p in pieces && Yields(syn, p, n) {
        if n in EntryNets(syn, pieces) {
          if n in PieceNets(syn, pieces[0]) {
            assert Yields(syn, pieces[0], n);
          } else {
            var p :| p in pieces[1..] && Yields(syn, p, n);
            assert p in pieces;
          }
        }
        if exists p :: p in pieces && Yields(syn, p, n) {
          var p :| p in pieces && Yields(syn, p, n);
          if p != pieces[0] {
            assert p in pieces[1..];
          }
        }
      }
    }
  }

  lemma {:induction false} PiecesAppend(a: seq<string>, b: seq<string>)
    ensures Pieces(a + b) == Pieces(a) + Pieces(b)
    decreases |a|
  {
    if |a| == 0 {
      assert a + b == b;
    } else {
      assert (a + b)[0] == a[0];
      assert (a + b)[1..] == a[1..] + b;
      PiecesAppend(a[1..], b);
    }
  }

  /** Allow-list entries are read independently: appending entries appends
      their networks and takes none of the earlier ones away. */
  lemma ParseAllowedIPsAppend(syn: Syntax, a: seq<string>, b: seq<string>)
    ensures ParseAllowedIPs(syn, a + b) == ParseAllowedIPs(syn, a) + ParseAllowedIPs(syn, b)
  {
    PiecesAppend(a, b);
    EntryNetsAppend(syn, Pieces(a), Pieces(b));
  }

  /** An entry none of whose pieces parses is skipped without disturbing
      the networks of the other entries. */
  lemma UnparsableEntrySkipped(syn: Syntax, a: seq<string>, e: string, b: seq<string>)
    requires forall p :: p in Split(e, ',') ==> PieceNets(syn, p) == []
    ensures ParseAllowedIPs(syn, a + [e] + b) == ParseAllowedIPs(syn, a + b)
  {
    ParseAllowedIPsAppend(syn, a + [e], b);
    ParseAllowedIPsAppend(syn, a, [e]);
    ParseAllowedIPsAppend(syn, a, b);
    NoneYieldEmpty(syn, Split(e, ','));
    assert [e][1..] == [];
    assert Pieces([e]) == Split(e, ',');
    assert ParseAllowedIPs(syn, [e]) == [];
    var pa, pb := ParseAllowedIPs(syn, a), ParseAllowedIPs(syn, b);
    assert ParseAllowedIPs(syn, a + [e]) == pa + [];
    assert pa + [] == pa;
  }

  lemma {:induction false} NoneYieldEmpty(syn: Syntax, pieces: seq<string>)
    requires forall p :: p in pieces ==> PieceNets(syn, p) == []
    ensures EntryNets(syn, pieces) == []
    decreases |pieces|
  {
    if |pieces| > 0 {
      assert pieces[0] in pieces;
      assert forall p :: p in pieces[1..] ==> p in pieces;
      NoneYieldEmpty(syn, pieces[1..]);
    }
  }

  /** `isIPAllowed`: an absent address is never allowed; otherwise some
      network must contain it. */
  function IsIPAllowed(ip: Option<IP>, nets: seq<Net>): (r: bool)
    ensures r <==> ip.Some? && exists i :: 0 <= i < |nets| && Contains(nets[i], ip.value)
    decreases |nets|
  {
    if ip.None? then false
    else if |nets| == 0 then false
    else if Contains(nets[0], ip.value) then true
    else
      assert forall i :: 1 <= i < |nets| ==> nets[i] == nets[1..][i - 1];
      IsIPAllowed(ip, nets[1..])
  }

  /** More networks never withdraw an allowance. */
  lemma AllowedMonotone(ip: Option<IP>, n1: seq<Net>, n2: seq<Net>)
    requires forall n :: n in n1 ==> n in n2
    requires IsIPAllowed(ip, n1)
    ensures IsIPAllowed(ip, n2)
  {
    var i :| 0 <= i < |n1| && Contains(n1[i], ip.value);
    assert n1[i] in n2;
    var j :| 0 <= j < |n2| && n2[j] == n1[i];
  }
}
