/** The product-assembly loop of `main` (gdrive_client.py:118-134): one
    product record per product folder, in folder order, each carrying the
    folder's id and name, the folder's image listing with rewritten view
    links, and the path of its page. */
module Products {
  import opened Wrappers
  import opened Drive
  import opened Slug
  import opened ViewLink

  datatype Product = Product(id: string, name: string, images: seq<Image>, url: string)

  const ProductDir: string := "docs/products/"
  const PageExt: string := ".html"
  const IndexPath: string := "docs/index.html"

  /** `docs/products/<slug>.html`: the page path for a slug. */
  function PagePath(slug: string): (url: string)
    ensures |url| == |ProductDir| + |slug| + |PageExt|
    ensures url[..|ProductDir|] == ProductDir
    ensures url[|ProductDir|..|url| - |PageExt|] == slug
    ensures url[|url| - |PageExt|..] == PageExt
  {
    ProductDir + slug + PageExt
  }

  /** Distinct slugs give distinct page paths. */
  lemma PagePathInjective(a: string, b: string)
    ensures PagePath(a) == PagePath(b) <==> a == b
  {
    if PagePath(a) == PagePath(b) {
      var u := PagePath(a);
      assert a == u[|ProductDir|..|u| - |PageExt|];
    }
  }

  lemma IndexPathChar()
    ensures |IndexPath| == 15 && IndexPath[5] == 'i'
  {
  }

  lemma ProductDirChar()
    ensures |ProductDir| == 14 && ProductDir[5] == 'p'
  {
  }

  /** No page path is the index page: the two differ in their sixth
      character. */
  lemma PagePathNotIndex(slug: string)
    ensures PagePath(slug) != IndexPath
  {
    var url := PagePath(slug);
    ProductDirChar();
    IndexPathChar();
    assert url[5] == url[..|ProductDir|][5];
  }

  /** The page path of the product named `name`: its middle part is a slug. */
  function ProductUrl(name: string): (url: string)
    ensures url == PagePath(Slugify(name))
    ensures IsSlug(url[|ProductDir|..|url| - |PageExt|])
  {
    PagePath(Slugify(name))
  }

  /** Two products share a page exactly when their names share a slug. */
  lemma ProductUrlShared(a: string, b: string)
    ensures ProductUrl(a) == ProductUrl(b) <==> Slugify(a) == Slugify(b)
  {
    PagePathInjective(Slugify(a), Slugify(b));
  }

  /** The product record built for one folder. */
  function CatalogProduct(service: Service, folder: Folder): (p: Product)
    ensures p.id == folder.id && p.name == folder.name
    ensures p.url == ProductUrl(folder.name)
    ensures p.images == RewriteAll(ListImages(service, folder.id))
  {
    Product(folder.id, folder.name, RewriteAll(ListImages(service, folder.id)), ProductUrl(folder.name))
  }

  /** The whole product list: one record per folder, in folder order, each
      appended after the records of the folders before it. */
  function Catalog(service: Service, folders: seq<Folder>): (products: seq<Product>)
    ensures |products| == |folders|
  {
    if folders == [] then []
    else Catalog(service, folders[..|folders| - 1]) + [CatalogProduct(service, folders[|folders| - 1])]
  }

  /** The product at position `i` is the record of the folder at position
      `i`. */
  lemma {:induction false} CatalogAt(service: Service, folders: seq<Folder>, i: nat)
    requires i < |folders|
    ensures Catalog(service, folders)[i] == CatalogProduct(service, folders[i])
    decreases |folders|
  {
    var n := |folders| - 1;
    var prefix := Catalog(service, folders[..n]);
    var last := CatalogProduct(service, folders[n]);
    assert Catalog(service, folders) == prefix + [last];
    if i < n {
      CatalogAt(service, folders[..n], i);
      SnocIndex(prefix, last, i);
      TakeIndex(folders, n, i);
    } else {
      SnocIndex(prefix, last, i);
    }
  }

  /** Two products of the catalog share a page exactly when their folder
      names share a slug; no product uses the index page. */
  lemma CatalogUrls(service: Service, folders: seq<Folder>, i: nat, j: nat)
    requires i < |folders| && j < |folders|
    ensures Catalog(service, folders)[i].url != IndexPath
    ensures Catalog(service, folders)[i].url == Catalog(service, folders)[j].url
      <==> Slugify(folders[i].name) == Slugify(folders[j].name)
  {
    CatalogAt(service, folders, i);
    CatalogAt(service, folders, j);
    PagePathNotIndex(Slugify(folders[i].name));
    ProductUrlShared(folders[i].name, folders[j].name);
  }

  /** Sequence facts kept generic, so that the solver meets them without
      the contracts of the functions applied to the sequence. */
  lemma SnocIndex<T>(s: seq<T>, x: T, i: nat)
    requires i <= |s|
    ensures (s + [x])[i] == if i < |s| then s[i] else x
  {
  }

  lemma TakeIndex<T>(s: seq<T>, n: nat, i: nat)
    requires i < n <= |s|
    ensures s[..n][i] == s[i]
  {
  }

  lemma TakeOfTake<T>(s: seq<T>, i: nat)
    requires i < |s|
    ensures s[..i + 1][..i] == s[..i] && s[..i + 1][i] == s[i]
  {
  }

  lemma TakeAll<T>(s: seq<T>)
    ensures s[..|s|] == s
  {
  }

  /** The body of the assembly loop for one folder: list its images into a
      fresh buffer, rewrite their view links in place, and build the record. */
  method BuildProduct(service: Service, folder: Folder) returns (product: Product)
    ensures product == CatalogProduct(service, folder)
  {
    var listed := ListImages(service, folder.id);
    var images := new Image[|listed|](k requires 0 <= k < |listed| => listed[k]);
    assert images[..] == listed;
    RewriteViewLinks(images);
    var slug := Slugify(folder.name);
    product := Product(folder.id, folder.name, images[..], ProductDir + slug + PageExt);
  }

  /** The assembly loop: append one product per folder, in folder order. */
  method BuildCatalog(service: Service, folders: seq<Folder>) returns (products: seq<Product>)
    ensures products == Catalog(service, folders)
  {
    products := [];
    for i := 0 to |folders|
      invariant products == Catalog(service, folders[..i])
    {
      var product := BuildProduct(service, folders[i]);
      TakeOfTake(folders, i);
      products := products + [product];
    }
    TakeAll(folders);
  }
}
