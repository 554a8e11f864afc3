/**
 * Mount names in URLs. A mount path such as `/mnt/data` is shown in links as
 * `@mnt@data` (every `/` becomes `@`), and the info and data pages turn every
 * `@` of the requested name back into `/` before looking the disk up.
 */
module Mounts {

  /** `s` with every occurrence of the character `from` replaced by `to`
      (strings.Replace with a one-character pattern and no limit). */
  function ReplaceChar(s: string, from: char, to: char): (r: string)
    ensures |r| == |s|
    ensures forall i :: 0 <= i < |s| ==> r[i] == (if s[i] == from then to else s[i])
  {
    if s == [] then []
    else [if s[0] == from then to else s[0]] + ReplaceChar(s[1..], from, to)
  }

  /** The escaped form of a mount, used in page links. */
  function Escape(mount: string): (r: string)
    ensures |r| == |mount|
    ensures '/' !in r
  {
    ReplaceChar(mount, '/', '@')
  }

  /** The mount a requested name stands for. */
  function Unescape(name: string): (r: string)
    ensures |r| == |name|
    ensures '@' !in r
  {
    ReplaceChar(name, '@', '/')
  }

  /** Un-escaping undoes escaping exactly for the mounts that contain no `@`;
      a mount with an `@` comes back with a `/` in its place. */
  lemma RoundTrip(mount: string)
    ensures Unescape(Escape(mount)) == mount <==> '@' !in mount
  {
    var back := Unescape(Escape(mount));
    if '@' !in mount {
      forall i | 0 <= i < |mount| ensures back[i] == mount[i] {
        assert mount[i] != '@';
      }
    } else {
      var i :| 0 <= i < |mount| && mount[i] == '@';
      assert back[i] == '/';
    }
  }

  /** Two different `@`-free mounts never share an escaped name, so the name
      in a link identifies its mount. */
  lemma EscapeInjective(m1: string, m2: string)
    requires '@' !in m1 && '@' !in m2
    requires Escape(m1) == Escape(m2)
    ensures m1 == m2
  {
    RoundTrip(m1);
    RoundTrip(m2);
  }

  /** A concrete mount the page links cannot reach. */
  lemma AtSignLost()
    ensures Unescape(Escape("/a@b")) == "/a/b"
  {
    var m, e, back := "/a@b", Escape("/a@b"), Unescape(Escape("/a@b"));
    assert e[0] == '@' && e[1] == 'a' && e[2] == '@' && e[3] == 'b' by {
      assert m[0] == '/' && m[1] == 'a' && m[2] == '@' && m[3] == 'b';
    }
    assert back == "/a/b";
  }
}
