/** The search plugins as one closed datatype. Whether a plugin extracts
    assembly references or package references (the two extractor
    interfaces it may implement) is a capability tag on the constructor. */
module SearchPlugin {
  import opened Common
  import opened Xml
  import opened Records
  import ExtractorUtil
  import BindingRedirectExtractor
  import CentralPackageManagementExtractor
  import PackagesConfigExtractor
  import SdkProjExtractor

  datatype Plugin = BindingRedirect | CentralPackageManagement | PackagesConfig | SdkProj
  {
    /** Implements IAssemblyReferenceExtractor. */
    predicate ExtractsAssemblies() {
      this.BindingRedirect?
    }

    /** Implements IPackageReferenceExtractor. */
    predicate ExtractsPackages() {
      !this.BindingRedirect?
    }

    /** ISearchPlugin.GetSearchClause, by the plugin's own definition. */
    function SearchClause(packageName: string, useWildcardSuffix: bool): string {
      match this
      case BindingRedirect => BindingRedirectExtractor.SearchClause(packageName, useWildcardSuffix)
      case CentralPackageManagement => CentralPackageManagementExtractor.SearchClause(packageName, useWildcardSuffix)
      case PackagesConfig => PackagesConfigExtractor.SearchClause(packageName, useWildcardSuffix)
      case SdkProj => SdkProjExtractor.SearchClause(packageName, useWildcardSuffix)
    }

    function ExtractAssemblyReferences<AV>(doc: XDocument, target: string, useWildcardSuffix: bool,
                                           parseVersion: string -> Option<AV>): (r: seq<AssemblyReference<AV>>)
      requires ExtractsAssemblies()
      ensures forall x :: x in r ==> ExtractorUtil.NameMatches(Some(x.name), target, useWildcardSuffix)
    {
      BindingRedirectExtractor.ExtractAssemblyReferences(doc, target, useWildcardSuffix, parseVersion)
    }

    function ExtractPackageReferences<PV>(doc: XDocument, target: string, useWildcardSuffix: bool,
                                          parseVersion: string -> Option<PV>): (r: seq<PackageReference<PV>>)
      requires ExtractsPackages()
      ensures forall x :: x in r ==> ExtractorUtil.NameMatches(Some(x.name), target, useWildcardSuffix)
    {
      match this
      case CentralPackageManagement =>
        CentralPackageManagementExtractor.ExtractPackageReferences(doc, target, useWildcardSuffix, parseVersion)
      case PackagesConfig => PackagesConfigExtractor.ExtractPackageReferences(doc, target, useWildcardSuffix, parseVersion)
      case SdkProj => SdkProjExtractor.ExtractPackageReferences(doc, target, useWildcardSuffix, parseVersion)
    }
  }
}
