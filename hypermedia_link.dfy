/**
 * The links a server offers for one API version: a version string and a table
 * from media term to the link's address, written once per term.
 */
module HypermediaLinks {
  import opened Results
  import opened Maps

  /** One link: its address and whether the address is a URI template. */
  datatype Hypermedia = Hypermedia(href: string, templated: bool)

  class HypermediaLink {
    var version: Option<string>
    var links: map<string, Hypermedia>

    /** `new HypermediaLink()`: no version, no links. */
    constructor ()
      ensures version == None && links == map[]
    {
      version := None;
      links := map[];
    }

    /** `setVersion(v)`: the links stay. */
    method SetVersion(v: Option<string>)
      modifies this
      ensures GetVersion() == v && links == old(links)
    {
      version := v;
    }

    /** `getVersion()`. */
    function GetVersion(): Option<string>
      reads this
    {
      version
    }

    /** `addHypermedia(media, link)`: stored only if the media term has no link yet. */
    method AddHypermedia(media: string, link: Hypermedia)
      modifies this
      ensures links == PutIfAbsent(old(links), media, link) && version == old(version)
    {
      if media !in links {
        links := links[media := link];
      }
    }

    /**
     * `equals(obj)`: false for null and for objects of other classes; otherwise
     * the other link's version compared with this one's, which throws when the
     * other link has no version.
     */
    function Equals(other: Ref<HypermediaLink>): Result<bool>
      reads this, if other.Is? then {other.obj} else {}
    {
      if !other.Is? then Ok(false)
      else if other.obj.version.None? then Fail(NullPointer)
      else Ok(other.obj.version == version)
    }
  }

  /** Only versions take part in `equals`: links, and the object's identity, do not. */
  lemma EqualsComparesVersions(h: HypermediaLink, other: HypermediaLink)
    ensures h.Equals(Ref.Null) == Ok(false) && h.Equals(Foreign) == Ok(false)
    ensures other.version.Some? ==> h.Equals(Is(other)) == Ok(h.version == other.version)
    ensures other.version.None? ==> h.Equals(Is(other)) == Fail(NullPointer)
    ensures h.version.Some? ==> h.Equals(Is(h)) == Ok(true)
  {
  }
}
