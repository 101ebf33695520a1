/** The slugs of the two folder names used as examples of `slugify`:
    `"Red Mug"` and `"Blue_Mug!!"`. Each step on a literal is its own small
    lemma, so that the solver evaluates one function on one literal at a time. */
module SlugExamples {
  import opened Slug

  lemma LowerRed()
    ensures Lower("Red") == "red"
  {
  }

  lemma LowerMug()
    ensures Lower("Mug") == "mug"
  {
  }

  lemma LowerBlue()
    ensures Lower("Blue") == "blue"
  {
  }

  lemma LowerMugBang()
    ensures Lower("Mug!!") == "mug!!"
  {
  }

  lemma NoSeparatorsMugBang()
    ensures forall i :: 0 <= i < |"Mug!!"| ==> !IsSeparator("Mug!!"[i])
  {
  }

  lemma KeepMugBang()
    ensures KeepSlugChars("mug!!") == "mug"
  {
  }

  /** A separator-free text whose lower-cased form is a non-empty slug is a
      word, and filtering leaves that form as it is. */
  lemma WordOfSlug(w: string, lowered: string)
    requires forall i :: 0 <= i < |w| ==> !IsSeparator(w[i])
    requires Lower(w) == lowered && lowered != [] && IsSlug(lowered)
    ensures IsWord(w) && KeepSlugChars(Lower(w)) == lowered
  {
  }

  lemma WordRed()
    ensures IsWord("Red") && KeepSlugChars(Lower("Red")) == "red"
  {
    LowerRed();
    assert IsSlug("red");
    WordOfSlug("Red", "red");
  }

  lemma WordMug()
    ensures IsWord("Mug") && KeepSlugChars(Lower("Mug")) == "mug"
  {
    LowerMug();
    assert IsSlug("mug");
    WordOfSlug("Mug", "mug");
  }

  lemma WordBlue()
    ensures IsWord("Blue") && KeepSlugChars(Lower("Blue")) == "blue"
  {
    LowerBlue();
    assert IsSlug("blue");
    WordOfSlug("Blue", "blue");
  }

  /** Trailing punctuation is filtered away. */
  lemma WordMugBang()
    ensures IsWord("Mug!!") && KeepSlugChars(Lower("Mug!!")) == "mug"
  {
    LowerMugBang();
    KeepMugBang();
    NoSeparatorsMugBang();
    assert IsSlug("mug");
  }

  /** `"Red Mug"` gives `"red-mug"`. */
  lemma SlugifyRedMug()
    ensures Slugify("Red" + " " + "Mug") == "red" + "-" + "mug"
  {
    WordRed();
    WordMug();
    SlugifyJoin("Red", " ", "Mug");
    SlugifyWord("Red");
    SlugifyWord("Mug");
  }

  /** `"Blue_Mug!!"` gives `"blue-mug"`. */
  lemma SlugifyBlueMug()
    ensures Slugify("Blue" + "_" + "Mug!!") == "blue" + "-" + "mug"
  {
    WordBlue();
    WordMugBang();
    SlugifyJoin("Blue", "_", "Mug!!");
    SlugifyWord("Blue");
    SlugifyWord("Mug!!");
  }

  lemma WordA()
    ensures IsWord("a") && KeepSlugChars(Lower("a")) == "a"
  {
    assert Lower("a") == "a";
    WordOfSlug("a", "a");
  }

  lemma WordB()
    ensures IsWord("b") && KeepSlugChars(Lower("b")) == "b"
  {
    assert Lower("b") == "b";
    WordOfSlug("b", "b");
  }

  /** `"a - b"` gives `"a---b"`: the hyphen is kept and each space becomes
      one more hyphen. */
  lemma SlugifyAHyphenB()
    ensures Slugify("a" + " " + "-" + " " + "b") == "a" + "-" + "-" + "-" + "b"
  {
    WordA();
    WordB();
    SlugifyHyphenJoin("a", " ", " ", "b");
    SlugifyWord("a");
    SlugifyWord("b");
  }

  lemma LowerCafe()
    ensures Lower("Caf\U{E9}!") == "caf\U{E9}!"
  {
  }

  lemma KeepCafe()
    ensures KeepSlugChars("caf\U{E9}!") == "caf"
  {
  }

  lemma NoSeparatorsCafe()
    ensures forall i :: 0 <= i < |"Caf\U{E9}!"| ==> !IsSeparator("Caf\U{E9}!"[i])
  {
  }

  /** Letters outside ASCII are deleted, not transliterated: `"Café!"`
      gives `"caf"`, the same slug as `"Caf"`. */
  lemma SlugifyCafe()
    ensures Slugify("Caf\U{E9}!") == "caf"
  {
    LowerCafe();
    KeepCafe();
    NoSeparatorsCafe();
    assert IsSlug("caf");
    SlugifyWord("Caf\U{E9}!");
  }
}
