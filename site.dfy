/**
 * `site.js`: the storefront page's global state (`currentSlide`,
 * `cartTotal`, `cartCount`, the hero slider's dots) and its event handlers.
 * Timers, notifications and styling are not modelled.
 */
module Site {
  import opened Wrappers
  import opened Text
  import opened Browser
  import Currency

  /** `initSlider`'s `totalSlides` and `goToSlide`'s literal `% 3`. */
  const TotalSlides := 3

  function Sum(prices: seq<nat>): nat
  {
    if prices == [] then 0 else Sum(prices[..|prices| - 1]) + prices[|prices| - 1]
  }

  class Storefront {
    var currentSlide: int
    /** The slider container's `translateX(-offsetPercent%)`. */
    var offsetPercent: int
    /** `.slider-dot` elements: whether each carries `active`. */
    const dots: array<bool>

    var cartTotal: int
    var cartCount: int
    /** Whether the page has the `#cartTotal` and `#cartCount` elements. */
    const hasCartWidget: bool
    var cartTotalText: string
    var cartCountText: string
    /** Every price added to the cart so far. */
    ghost var added: seq<nat>

    ghost predicate Valid()
      reads this
    {
      cartTotal == Sum(added) && cartCount == |added|
    }

    constructor (dots: array<bool>, hasCartWidget: bool)
      ensures Valid()
      ensures this.dots == dots && this.hasCartWidget == hasCartWidget
      ensures currentSlide == 0 && cartTotal == 0 && cartCount == 0 && added == []
    {
      this.dots := dots;
      this.hasCartWidget := hasCartWidget;
      currentSlide := 0;
      cartTotal := 0;
      cartCount := 0;
      added := [];
    }

    /** `updateSlider`: moves the container and marks exactly the dot of `currentSlide` active. */
    method UpdateSlider()
      modifies this`offsetPercent, dots
      ensures offsetPercent == currentSlide * 100
      ensures forall k :: 0 <= k < dots.Length ==> dots[k] == (k == currentSlide)
      ensures CountTrue(dots[..]) == if 0 <= currentSlide < dots.Length then 1 else 0
    {
      offsetPercent := currentSlide * 100;
      for k := 0 to dots.Length
        invariant offsetPercent == currentSlide * 100
        invariant forall j :: 0 <= j < k ==> dots[j] == (j == currentSlide)
      {
        dots[k] := k == currentSlide;
      }
      OneHotCount(dots[..], currentSlide);
    }

    /** The auto-advance callback set up by `initSlider` and `goToSlide`. */
    method AdvanceSlide()
      modifies this`currentSlide, this`offsetPercent, dots
      ensures currentSlide == JsRem(old(currentSlide) + 1, TotalSlides)
      ensures -1 <= old(currentSlide) < TotalSlides ==> 0 <= currentSlide < TotalSlides
      ensures forall k :: 0 <= k < dots.Length ==> dots[k] == (k == currentSlide)
      ensures offsetPercent == currentSlide * 100
    {
      currentSlide := JsRem(currentSlide + 1, TotalSlides);
      UpdateSlider();
    }

    /** `goToSlide(slideIndex)`: no range check on the index. */
    method GoToSlide(slideIndex: int)
      modifies this`currentSlide, this`offsetPercent, dots
      ensures currentSlide == slideIndex
      ensures forall k :: 0 <= k < dots.Length ==> dots[k] == (k == slideIndex)
      ensures offsetPercent == slideIndex * 100
    {
      currentSlide := slideIndex;
      UpdateSlider();
    }

    /** `addToCart(price)` followed by `updateCartDisplay`. */
    method AddToCart(price: nat)
      requires Valid()
      modifies this`cartTotal, this`cartCount, this`added, this`cartTotalText, this`cartCountText
      ensures Valid()
      ensures added == old(added) + [price]
      ensures cartTotal == old(cartTotal) + price && cartCount == old(cartCount) + 1
      ensures hasCartWidget ==>
        cartTotalText == Currency.FormatCurrency(cartTotal) && cartCountText == DecimalDigits(cartCount)
      ensures hasCartWidget ==> Currency.RemoveDots(cartTotalText) == DecimalDigits(Sum(added))
      ensures !hasCartWidget ==> cartTotalText == old(cartTotalText) && cartCountText == old(cartCountText)
    {
      cartTotal := cartTotal + price;
      cartCount := cartCount + 1;
      added := added + [price];
      assert added[..|added| - 1] == old(added);
      if hasCartWidget {
        cartTotalText := Currency.FormatCurrency(cartTotal);
        cartCountText := DecimalDigits(cartCount);
        Currency.FormatCurrencyRemoveDots(cartTotal);
      }
    }
  }

  /** The icon's classes after a wishlist click: `far` becomes `fas`, anything else becomes `far`. */
  function Toggled(classes: set<string>): (r: set<string>)
    ensures "far" in classes ==> "fas" in r && "far" !in r
    ensures "far" !in classes ==> "far" in r && "fas" !in r
    ensures forall c :: c != "far" && c != "fas" ==> (c in r <==> c in classes)
  {
    if "far" in classes then classes - {"far"} + {"fas"}
    else classes - {"fas"} + {"far"}
  }

  /** Two clicks restore the icon exactly when it had one of the two styles, not both and not neither. */
  lemma ToggleTwice(classes: set<string>)
    ensures Toggled(Toggled(classes)) == classes <==> (("far" in classes) != ("fas" in classes))
  {
    var twice := Toggled(Toggled(classes));
    if ("far" in classes) == ("fas" in classes) {
      assert ("far" in twice) != ("fas" in twice);
    }
  }

  const HeartColor := "#ff6b6b"
  const PlainBorder := "#e1e8ed"
  const PlainColor := "#333"

  /** A `.wishlist-btn` and its `<i>` icon. */
  class WishlistButton {
    var iconClasses: set<string>
    var borderColor: string
    var color: string

    constructor (iconClasses: set<string>, borderColor: string, color: string)
      ensures this.iconClasses == iconClasses && this.borderColor == borderColor && this.color == color
    {
      this.iconClasses := iconClasses;
      this.borderColor := borderColor;
      this.color := color;
    }

    /** The document click handler, for a click inside this button. */
    method Click() returns (added: bool)
      modifies this
      ensures added == ("far" in old(iconClasses))
      ensures iconClasses == Toggled(old(iconClasses))
      ensures added ==> borderColor == HeartColor && color == HeartColor
      ensures !added ==> borderColor == PlainBorder && color == PlainColor
    {
      added := "far" in iconClasses;
      if added {
        iconClasses := iconClasses - {"far"} + {"fas"};
        borderColor, color := HeartColor, HeartColor;
      } else {
        iconClasses := iconClasses - {"fas"} + {"far"};
        borderColor, color := PlainBorder, PlainColor;
      }
    }
  }

  /** An element on the path from an event target up to the document root. */
  datatype Element = Element(tagName: string, classes: set<string>)

  /** `closest(selector)` for a tag name: the nearest element, starting at the target itself. */
  function Closest(path: seq<Element>, tagName: string): (r: Option<nat>)
    ensures r.Some? ==> r.value < |path| && path[r.value].tagName == tagName
    ensures r.Some? ==> forall k :: 0 <= k < r.value ==> path[k].tagName != tagName
    ensures r.None? ==> forall k :: 0 <= k < |path| ==> path[k].tagName != tagName
  {
    if path == [] then None
    else if path[0].tagName == tagName then Some(0)
    else
      match Closest(path[1..], tagName)
      case None => None
      case Some(k) => Some(k + 1)
  }

  /**
   * The keypress handler calls `preventDefault` for Enter on anything but a
   * textarea whose nearest enclosing form is not the newsletter form.
   * `path[0]` is the event target.
   */
  function SuppressesEnter(key: string, path: seq<Element>): (r: bool)
    requires |path| >= 1
    ensures r <==>
      && key == "Enter" && path[0].tagName != "TEXTAREA"
      && exists k :: 0 <= k < |path| && path[k].tagName == "FORM"
           && (forall j :: 0 <= j < k ==> path[j].tagName != "FORM")
           && "newsletter-form" !in path[k].classes
  {
    && key == "Enter"
    && path[0].tagName != "TEXTAREA"
    && match Closest(path, "FORM")
       case None => false
       case Some(k) => "newsletter-form" !in path[k].classes
  }

  /** The newsletter form's e-mail input. */
  class NewsletterForm {
    var emailValue: string

    constructor (emailValue: string)
      ensures this.emailValue == emailValue
    {
      this.emailValue := emailValue;
    }

    /** `subscribeNewsletter`: confirms a non-empty address and clears it; the form is never submitted. */
    method Subscribe() returns (confirmed: Option<string>)
      modifies this
      ensures old(emailValue) != "" ==> confirmed == Some(old(emailValue))
      ensures old(emailValue) == "" ==> confirmed.None?
      ensures emailValue == ""
    {
      if emailValue != "" {
        confirmed := Some(emailValue);
        emailValue := "";
      } else {
        confirmed := None;
      }
    }
  }
}
