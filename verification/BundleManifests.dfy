/** Course-bundle manifests (scripts/course_bundle_validation.py). */
module BundleManifests {

  import opened Options
  import opened PathCollision

  datatype ImportItem = ImportItem(target: Path, dependencies: seq<Path>)

  datatype Import = Import(bundle: string, all: bool, items: seq<ImportItem>)

  datatype Item = Item(kind: string, path: Path)

  /** A unit with its collections already strung together; its order is optional in a manifest. */
  datatype Unit = Unit(id: string, title: string, order: Option<int>, items: seq<Item>)

  datatype Manifest = Manifest(id: string, imports: seq<Import>, units: seq<Unit>, overrides: seq<Path>)

  type Manifests = map<string, Manifest>
}
