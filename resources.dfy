/**
 * The resources a server offers: one HypermediaLink per API version, the first
 * one added for a version kept. The queries look up a version, a resource term
 * within it, and a parameter within the resource's URI template.
 */
module ServerResources {
  import opened Results
  import opened Maps
  import opened ParameterTerms
  import opened ResourceTerms
  import opened HypermediaLinks
  import opened UriTemplates
  import opened UriTemplateProperties

  class Resources {
    /** Version (null included, as java.util.HashMap allows) to the link object stored for it. */
    var resources: map<Option<string>, HypermediaLink>

    /** `new Resources()`: no versions. */
    constructor ()
      ensures resources == map[]
    {
      resources := map[];
    }

    /** `addResource(link)`: kept under the link's version unless that version is present already. */
    method AddResource(link: HypermediaLink)
      modifies this
      ensures resources == PutIfAbsent(old(resources), link.version, link)
    {
      if link.version !in resources {
        resources := resources[link.version := link];
      }
    }

    /** `hasVersion(version)`: false for null, key membership otherwise. */
    predicate HasVersion(version: Option<string>)
      reads this
    {
      version.Some? && version in resources
    }

    /** `hasResource(version, resource)`: the version's links name the resource's term. */
    predicate HasResource(version: Option<string>, resource: Option<ResourceTerm>)
      reads this, resources.Values
    {
      version.Some? && resource.Some? && version in resources &&
      resource.value.Term() in resources[version].links
    }

    /** The answer `hasResourceParameter` gives: a templated link whose template names the parameter. */
    predicate AllowsParameter(version: Option<string>, resource: Option<ResourceTerm>, parameter: Option<ParameterTerm>)
      reads this, resources.Values
    {
      version.Some? && resource.Some? && parameter.Some? && version in resources &&
      resource.value.Term() in resources[version].links &&
      resources[version].links[resource.value.Term()].templated &&
      HasParameterIn(resources[version].links[resource.value.Term()].href, parameter.value.Term())
    }

    /** The arguments reach a templated link, so `hasResourceParameter` loads its href. */
    predicate LoadsTemplate(version: Option<string>, resource: Option<ResourceTerm>, parameter: Option<ParameterTerm>)
      reads this, resources.Values
    {
      version.Some? && resource.Some? && parameter.Some? && version in resources &&
      resource.value.Term() in resources[version].links &&
      resources[version].links[resource.value.Term()].templated
    }

    /**
     * `hasResourceParameter(version, resource, parameter)`: loads the link's
     * href into the shared template object and asks it for the parameter's term.
     * Loading overwrites the shared object's template and keeps its bindings;
     * the first load creates the object with none bound.
     */
    method HasResourceParameter(registry: TemplateRegistry, version: Option<string>,
                                resource: Option<ResourceTerm>, parameter: Option<ParameterTerm>)
      returns (r: bool)
      modifies registry, registry.instance
      ensures r == old(AllowsParameter(version, resource, parameter))
      ensures old(LoadsTemplate(version, resource, parameter)) ==>
        registry.instance != null &&
        registry.instance.template == old(resources[version].links[resource.value.Term()].href) &&
        (old(registry.instance) != null ==>
          registry.instance == old(registry.instance) && registry.instance.values == old(registry.instance.values)) &&
        (old(registry.instance) == null ==> fresh(registry.instance) && registry.instance.values == map[])
      ensures !old(LoadsTemplate(version, resource, parameter)) ==>
        registry.instance == old(registry.instance) &&
        (registry.instance != null ==> unchanged(registry.instance))
    {
      if version.None? || resource.None? || parameter.None? {
        return false;
      }
      if version in resources {
        var links := resources[version].links;
        var term := resource.value.Term();
        if term in links && links[term].templated {
          var template := registry.FromTemplate(links[term].href);
          r := template.HasParameter(parameter.value.Term());
          return;
        }
      }
      return false;
    }

    /** `getHypermediaWithVersion(version)`: null for null or an unknown version. */
    function GetHypermediaWithVersion(version: Option<string>): (r: Option<HypermediaLink>)
      reads this
      ensures r.Some? <==> HasVersion(version)
      ensures r.Some? ==> r.value == resources[version]
    {
      if version.Some? && version in resources then Some(resources[version]) else None
    }

    /** `getResources(version)`: the version's media terms, empty for an unknown version. */
    function GetResources(version: Option<string>): (r: set<string>)
      reads this, resources.Values
      ensures version !in resources ==> r == {}
      ensures version in resources ==> forall s :: s in r <==> s in resources[version].links
    {
      if version in resources then resources[version].links.Keys else {}
    }

    /** `getVersions()`. */
    function GetVersions(): set<Option<string>>
      reads this
    {
      resources.Keys
    }
  }

  /** The queries refuse null arguments, and `hasResource` is exactly membership in `getResources`. */
  lemma QueriesOnNull(res: Resources, version: Option<string>, resource: Option<ResourceTerm>, parameter: Option<ParameterTerm>)
    ensures !res.HasVersion(None) && res.GetHypermediaWithVersion(None).None?
    ensures !res.HasResource(None, resource) && !res.HasResource(version, None)
    ensures version.None? || resource.None? || parameter.None? ==> !res.AllowsParameter(version, resource, parameter)
    ensures resource.Some? && version.Some? ==>
      (res.HasResource(version, resource) <==> resource.value.Term() in res.GetResources(version))
  {
  }

  /** A template that allows a parameter belongs to a known resource, and the parameter is one of its names. */
  lemma AllowedParameterIsNamed(res: Resources, version: Option<string>, resource: Option<ResourceTerm>, parameter: ParameterTerm)
    requires res.AllowsParameter(version, resource, Some(parameter))
    ensures res.HasVersion(version) && res.HasResource(version, resource)
    ensures exists i: nat, a: nat, b: nat ::
      NameInSpan(res.resources[version].links[resource.value.Term()].href, parameter.Term(), i, a, b)
  {
    HasParameterSound(res.resources[version].links[resource.value.Term()].href, parameter.Term());
  }
}
