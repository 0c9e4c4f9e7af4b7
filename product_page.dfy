/**
 * The product page: an in-memory product list edited through a dialog. A save
 * validates the product, then updates it in place by id or appends it as new;
 * a delete removes by id.
 */
module ProductPage {
  import opened Wrappers
  import Seqs

  /**
   * A product as the page holds it. Every field may be missing: the blank
   * product of `openNew` is `{}`.
   */
  datatype Product = Product(id: Option<string>, name: Option<string>, price: Option<real>)

  /** `{}` */
  const BlankProduct := Product(None, None, None)

  /** `product.id` is truthy. */
  predicate HasId(p: Product)
  {
    p.id.Some? && p.id.value != ""
  }

  /** `product.name && product.price`: a non-empty name and a non-zero price. */
  predicate IsComplete(p: Product)
  {
    p.name.Some? && p.name.value != "" && p.price.Some? && p.price.value != 0.0
  }

  /** The update path's `map`: every entry with the product's id becomes the product. */
  function ReplaceById(products: seq<Product>, product: Product): (r: seq<Product>)
    ensures |r| == |products|
    ensures forall i :: 0 <= i < |r| && products[i].id == product.id ==> r[i] == product
    ensures forall i :: 0 <= i < |r| && products[i].id != product.id ==> r[i] == products[i]
  {
    seq(|products|, i requires 0 <= i < |products| => if products[i].id == product.id then product else products[i])
  }

  /** An update changes no entry's id, so every id stays where it was. */
  lemma ReplaceByIdKeepsIds(products: seq<Product>, product: Product)
    ensures forall i :: 0 <= i < |products| ==> ReplaceById(products, product)[i].id == products[i].id
  {
  }

  /** Saving the same update twice is the same as saving it once. */
  lemma ReplaceByIdIdempotent(products: seq<Product>, product: Product)
    ensures ReplaceById(ReplaceById(products, product), product) == ReplaceById(products, product)
  {
  }

  /** `deleteProduct`'s `filter`: entries whose id is not `id`. */
  function RemoveProductById(products: seq<Product>, id: Option<string>): (r: seq<Product>)
    ensures |r| <= |products|
    ensures forall i :: 0 <= i < |r| ==> r[i].id != id && r[i] in products
    ensures forall p :: p in products && p.id != id ==> p in r
  {
    Seqs.Filter(products, (p: Product) => p.id != id)
  }

  /**
   * A delete keeps exactly the entries with another id, every copy of each, in
   * their original order, and none with that id.
   */
  lemma RemoveProductByIdSpec(products: seq<Product>, id: Option<string>)
    ensures forall i :: 0 <= i < |RemoveProductById(products, id)| ==> RemoveProductById(products, id)[i].id != id
    ensures Seqs.IsSubsequence(RemoveProductById(products, id), products)
    ensures forall p :: multiset(RemoveProductById(products, id))[p] == if p.id != id then multiset(products)[p] else 0
  {
    var keep := (p: Product) => p.id != id;
    Seqs.FilterIsSubsequence(products, keep);
    forall p ensures multiset(RemoveProductById(products, id))[p] == if p.id != id then multiset(products)[p] else 0 {
      Seqs.FilterMultiset(products, keep, p);
    }
  }

  /** The page's state: the list, the product in the dialog, and whether the dialog is open. */
  class ProductPage {
    var products: seq<Product>
    var product: Product
    var dialogVisible: bool

    /** No products, a blank product, the dialog closed. */
    constructor ()
      ensures products == [] && product == BlankProduct && !dialogVisible
    {
      products := [];
      product := BlankProduct;
      dialogVisible := false;
    }

    /** `openNew`: a blank product in an open dialog; the list is untouched. */
    method OpenNew()
      modifies this
      ensures product == BlankProduct && dialogVisible
      ensures products == old(products)
    {
      product := BlankProduct;
      dialogVisible := true;
    }

    /** `editProduct`: a copy of the chosen product in an open dialog; the list is untouched. */
    method EditProduct(prod: Product)
      modifies this
      ensures product == prod && dialogVisible
      ensures products == old(products)
    {
      product := prod;
      dialogVisible := true;
    }

    /**
     * `saveProduct`. An incomplete product changes nothing and leaves the
     * dialog as it was. A product with an id replaces every entry with that
     * id. A product without one is given `newId` (the source draws it at
     * random), in place, and appended. A successful save closes the dialog.
     */
    method SaveProduct(newId: string)
      modifies this
      ensures !IsComplete(old(product)) ==>
        products == old(products) && product == old(product) && dialogVisible == old(dialogVisible)
      ensures IsComplete(old(product)) && HasId(old(product)) ==>
        products == ReplaceById(old(products), old(product)) && product == old(product) && !dialogVisible
      ensures IsComplete(old(product)) && !HasId(old(product)) ==>
        product == old(product).(id := Some(newId)) && products == old(products) + [product] && !dialogVisible
    {
      if IsComplete(product) {
        if HasId(product) {
          products := ReplaceById(products, product);
        } else {
          product := product.(id := Some(newId));
          products := products + [product];
        }
        dialogVisible := false;
      }
    }

    /** `deleteProduct`: every entry with that id goes; the dialog and its product are untouched. */
    method DeleteProduct(id: Option<string>)
      modifies this
      ensures products == RemoveProductById(old(products), id)
      ensures product == old(product) && dialogVisible == old(dialogVisible)
    {
      products := RemoveProductById(products, id);
    }
  }
}
