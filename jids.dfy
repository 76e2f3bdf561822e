/**
  XMPP addresses as the hypervisor uses them: built from parts, parsed from
  text (`xmpp.JID(text)`), and shown bare (`getStripped()`).
 */
module Jids {
  import opened Options

  /** An address `node@domain/resource`; a virtual machine's node is its uuid. */
  datatype Jid = Jid(node: string, domain: string, resource: string)

  /** `getStripped()`: `node@domain`, or the domain alone when there is no node. */
  function Bare(j: Jid): string {
    if j.node != "" then j.node + "@" + j.domain else j.domain
  }

  /** A node that names a registered machine: non-empty and free of `@`. */
  predicate IsNodeText(n: string) {
    n != "" && '@' !in n
  }

  /** The position of the first `c` in `s`, or `|s|` when there is none. */
  function IndexOf(s: string, c: char): (i: nat)
    ensures i <= |s|
    ensures i < |s| ==> s[i] == c
    ensures c !in s[..i]
    decreases |s|
  {
    if |s| == 0 then 0
    else if s[0] == c then 0
    else
      var k := IndexOf(s[1..], c);
      assert s[..k + 1] == [s[0]] + s[1..][..k];
      1 + k
  }

  /**
    `xmpp.JID(text)`: the node is what precedes the first `@` (empty when there
    is none), the resource what follows the first `/` after it; an empty text is
    refused, as the library raises `ValueError` for it.
   */
  function ParseJid(s: string): Option<Jid> {
    if s == "" then None
    else
      var a := IndexOf(s, '@');
      var node := if a < |s| then s[..a] else "";
      var rest := if a < |s| then s[a + 1..] else s;
      var b := IndexOf(rest, '/');
      Some(Jid(node, rest[..b], if b < |rest| then rest[b + 1..] else ""))
  }

  lemma {:induction false} IndexOfAfter(x: string, c: char, y: string)
    requires c !in x
    ensures IndexOf(x + [c] + y, c) == |x|
    decreases |x|
  {
    if |x| > 0 {
      assert (x + [c] + y)[1..] == x[1..] + [c] + y;
      IndexOfAfter(x[1..], c, y);
    }
  }

  lemma {:induction false} IndexOfAbsent(s: string, c: char)
    requires c !in s
    ensures IndexOf(s, c) == |s|
    decreases |s|
  {
    if |s| > 0 {
      IndexOfAbsent(s[1..], c);
    }
  }

  /** Parsing the bare form of an address gives back its node and domain. */
  lemma ParseBare(j: Jid)
    requires IsNodeText(j.node) && '/' !in j.domain
    ensures ParseJid(Bare(j)) == Some(Jid(j.node, j.domain, ""))
  {
    var s := Bare(j);
    assert s == j.node + ['@'] + j.domain;
    IndexOfAfter(j.node, '@', j.domain);
    var a := IndexOf(s, '@');
    assert a == |j.node| < |s|;
    assert s[..a] == j.node;
    var rest := s[a + 1..];
    assert rest == j.domain;
    IndexOfAbsent(j.domain, '/');
    var b := IndexOf(rest, '/');
    assert b == |rest|;
    assert rest[..b] == j.domain;
  }

  /** Two addresses with proper nodes share a bare form only if they share node and domain. */
  lemma BareInjective(j1: Jid, j2: Jid)
    requires IsNodeText(j1.node) && IsNodeText(j2.node)
    requires Bare(j1) == Bare(j2)
    ensures j1.node == j2.node && j1.domain == j2.domain
  {
    var s := Bare(j1);
    IndexOfAfter(j1.node, '@', j1.domain);
    IndexOfAfter(j2.node, '@', j2.domain);
    assert s[..|j1.node|] == j1.node;
    assert s[..|j2.node|] == j2.node;
    assert s[|j1.node| + 1..] == j1.domain;
    assert s[|j2.node| + 1..] == j2.domain;
  }
}
