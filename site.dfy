/** `generate_site` (gdrive_client.py:43-66): render the index page from the
    whole product list, then one page per product, in list order, each
    write replacing whatever the path held before. The filesystem is a map
    from path to content; the two Jinja2 templates are functions given by
    the caller. */
module Site {
  import opened Products

  /** The files the site is written into. */
  class FileSystem {
    var files: map<string, string>

    constructor (initial: map<string, string>)
      ensures files == initial
    {
      files := initial;
    }

    /** `open(path, 'w').write(content)`: creates or truncates the file. */
    method Write(path: string, content: string)
      modifies this
      ensures files == old(files)[path := content]
    {
      files := files[path := content];
    }
  }

  /** The `index.html` and `product.html` templates. */
  datatype Templates = Templates(index: seq<Product> -> string, product: Product -> string)

  /** The files after writing the pages of `products`, in order, into
      `files`. */
  function WriteProducts(files: map<string, string>, products: seq<Product>, t: Templates): (r: map<string, string>)
    ensures r.Keys == files.Keys + set p | p in products :: p.url
    decreases |products|
  {
    if products == [] then files
    else WriteProducts(files[products[0].url := t.product(products[0])], products[1..], t)
  }

  /** The files after `generate_site`: the index page first, then the
      product pages. */
  function SiteFiles(files: map<string, string>, products: seq<Product>, t: Templates): (r: map<string, string>)
    ensures r.Keys == files.Keys + {IndexPath} + set p | p in products :: p.url
  {
    WriteProducts(files[IndexPath := t.index(products)], products, t)
  }

  /** A path that no product page uses keeps what it held. */
  lemma {:induction false} WriteProductsKeeps(files: map<string, string>, products: seq<Product>, t: Templates, path: string)
    requires forall i :: 0 <= i < |products| ==> products[i].url != path
    requires path in files
    ensures WriteProducts(files, products, t)[path] == files[path]
    decreases |products|
  {
    if products != [] {
      WriteProductsKeeps(files[products[0].url := t.product(products[0])], products[1..], t, path);
    }
  }

  /** A page holds the render of the last product whose url it is: later
      products with the same url overwrite earlier ones. */
  lemma {:induction false} WriteProductsLastWins(files: map<string, string>, products: seq<Product>, t: Templates, i: nat)
    requires i < |products|
    requires forall j :: i < j < |products| ==> products[j].url != products[i].url
    ensures WriteProducts(files, products, t)[products[i].url] == t.product(products[i])
    decreases |products|
  {
    var next := files[products[0].url := t.product(products[0])];
    if i == 0 {
      WriteProductsKeeps(next, products[1..], t, products[0].url);
    } else {
      WriteProductsLastWins(next, products[1..], t, i - 1);
    }
  }

  /** When no product uses the index path, the index page holds the render
      of the whole product list. */
  lemma SiteIndexPage(files: map<string, string>, products: seq<Product>, t: Templates)
    requires forall i :: 0 <= i < |products| ==> products[i].url != IndexPath
    ensures SiteFiles(files, products, t)[IndexPath] == t.index(products)
  {
    WriteProductsKeeps(files[IndexPath := t.index(products)], products, t, IndexPath);
  }

  /** Each product page holds the render of the last product with that url. */
  lemma SiteProductPage(files: map<string, string>, products: seq<Product>, t: Templates, i: nat)
    requires i < |products|
    requires forall j :: i < j < |products| ==> products[j].url != products[i].url
    ensures SiteFiles(files, products, t)[products[i].url] == t.product(products[i])
  {
    WriteProductsLastWins(files[IndexPath := t.index(products)], products, t, i);
  }

  /** Every other path keeps what it held, and no other path is created. */
  lemma SiteOtherPaths(files: map<string, string>, products: seq<Product>, t: Templates, path: string)
    requires path != IndexPath
    requires forall i :: 0 <= i < |products| ==> products[i].url != path
    ensures path in SiteFiles(files, products, t) <==> path in files
    ensures path in files ==> SiteFiles(files, products, t)[path] == files[path]
  {
    if path in files {
      WriteProductsKeeps(files[IndexPath := t.index(products)], products, t, path);
    }
  }

  /** `generate_site` itself: write the index page, then each product page. */
  method GenerateSite(fs: FileSystem, products: seq<Product>, t: Templates)
    modifies fs
    ensures fs.files == SiteFiles(old(fs.files), products, t)
  {
    fs.Write(IndexPath, t.index(products));
    for i := 0 to |products|
      invariant WriteProducts(fs.files, products[i..], t) == SiteFiles(old(fs.files), products, t)
    {
      assert products[i..][1..] == products[i + 1..];
      fs.Write(products[i].url, t.product(products[i]));
    }
  }
}
