/** The data path of `main` (gdrive_client.py:108-136): list the product
    folders under the parent folder; with none, stop without writing
    anything; otherwise assemble the catalog and generate the site. */
module Client {
  import opened Drive
  import opened Slug
  import opened Products
  import opened Site

  method Run(service: Service, parentId: string, t: Templates, fs: FileSystem) returns (generated: bool)
    modifies fs
    ensures generated <==> ListSubfolders(service, parentId) != []
    ensures !generated ==> fs.files == old(fs.files)
    ensures generated ==>
      fs.files == SiteFiles(old(fs.files), Catalog(service, ListSubfolders(service, parentId)), t)
  {
    var folders := ListSubfolders(service, parentId);
    if folders == [] {
      return false;
    }
    var products := BuildCatalog(service, folders);
    GenerateSite(fs, products, t);
    generated := true;
  }

  /** The index page of a generated site lists the whole catalog. */
  lemma RunIndexPage(service: Service, folders: seq<Folder>, files: map<string, string>, t: Templates)
    ensures SiteFiles(files, Catalog(service, folders), t)[IndexPath] == t.index(Catalog(service, folders))
  {
    var products := Catalog(service, folders);
    forall i | 0 <= i < |products|
      ensures products[i].url != IndexPath
    {
      CatalogUrls(service, folders, i, i);
    }
    SiteIndexPage(files, products, t);
  }

  /** The page of a folder's product holds the render of the last folder
      whose name has the same slug; with two such folders, the later one's
      page replaces the earlier one's. */
  lemma RunProductPage(service: Service, folders: seq<Folder>, files: map<string, string>, t: Templates, i: nat)
    requires i < |folders|
    requires forall j :: i < j < |folders| ==> Slugify(folders[j].name) != Slugify(folders[i].name)
    ensures ProductUrl(folders[i].name) in SiteFiles(files, Catalog(service, folders), t)
    ensures SiteFiles(files, Catalog(service, folders), t)[ProductUrl(folders[i].name)]
      == t.product(CatalogProduct(service, folders[i]))
  {
    var products := Catalog(service, folders);
    forall j | i < j < |products|
      ensures products[j].url != products[i].url
    {
      CatalogUrls(service, folders, j, i);
    }
    CatalogAt(service, folders, i);
    SiteProductPage(files, products, t, i);
  }

  /** A path that is neither the index page nor any folder's product page
      keeps what it held, and no such path is created. */
  lemma RunOtherPaths(service: Service, folders: seq<Folder>, files: map<string, string>, t: Templates, path: string)
    requires path != IndexPath
    requires forall j :: 0 <= j < |folders| ==> ProductUrl(folders[j].name) != path
    ensures path in SiteFiles(files, Catalog(service, folders), t) <==> path in files
    ensures path in files ==> SiteFiles(files, Catalog(service, folders), t)[path] == files[path]
  {
    var products := Catalog(service, folders);
    forall j | 0 <= j < |products|
      ensures products[j].url != path
    {
      CatalogAt(service, folders, j);
    }
    SiteOtherPaths(files, products, t, path);
  }

  /** Two folders whose names share a slug share a page, and the later
      folder's product is what the page ends up holding. */
  lemma SameSlugLastWins(service: Service, folders: seq<Folder>, files: map<string, string>, t: Templates, i: nat, j: nat)
    requires i < j < |folders|
    requires Slugify(folders[i].name) == Slugify(folders[j].name)
    requires forall k :: j < k < |folders| ==> Slugify(folders[k].name) != Slugify(folders[j].name)
    ensures ProductUrl(folders[i].name) == ProductUrl(folders[j].name)
    ensures ProductUrl(folders[i].name) in SiteFiles(files, Catalog(service, folders), t)
    ensures SiteFiles(files, Catalog(service, folders), t)[ProductUrl(folders[i].name)]
      == t.product(CatalogProduct(service, folders[j]))
  {
    ProductUrlShared(folders[i].name, folders[j].name);
    RunProductPage(service, folders, files, t, j);
  }
}
