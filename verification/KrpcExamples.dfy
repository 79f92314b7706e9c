// The examples of BEP 3 ("bencoding") and BEP 5 ("KRPC Protocol", "ping", "Errors",
// "Contact Encoding"), encoded as src/Blocxxi/Codec/bencode.cpp and
// src/Blocxxi/P2P/kademlia/krpc.cpp do.
module KrpcExamples {
  import opened Wrappers
  import opened Bencode
  import opened Krpc

  // ----- bencoding -----

  lemma KnownNumbers()
    ensures Encode(Integer(3)) == "i3e" && Encode(Integer(-3)) == "i-3e" && Encode(Integer(0)) == "i0e"
    ensures Encode(Integer(201)) == "i201e"
  {
    assert Decimal(201) == Decimal(20) + ['1'] && Decimal(20) == Decimal(2) + ['0'];
  }

  lemma KnownSizes()
    ensures Decimal(1) == "1" && Decimal(2) == "2" && Decimal(4) == "4" && Decimal(20) == "20" && Decimal(23) == "23"
    ensures Decimal(3) == "3"
  {
    assert Decimal(20) == Decimal(2) + ['0'] && Decimal(23) == Decimal(2) + ['3'];
  }

  lemma KnownString(s: string)
    requires |s| == 1 || |s| == 2 || |s| == 3 || |s| == 4 || |s| == 20 || |s| == 23
    ensures EncodeString(s) == Encode(String(s)) == Decimal(|s|) + ":" + s
  {
    hide Decimal;
  }

  lemma KnownList()
    ensures Encode(List([String("spam"), String("eggs")])) == "l4:spam4:eggse"
  {
    hide Decimal;
    var v := List([String("spam"), String("eggs")]);
    KnownSizes();
    KnownString("spam");
    KnownString("eggs");
    EncodeCases(v);
    assert EncodeItems(v, 2) == EncodeItems(v, 1) + Encode(String("eggs"));
    assert EncodeItems(v, 1) == EncodeItems(v, 0) + Encode(String("spam"));
  }

  // A dictionary with its keys in order.
  lemma KnownDictionary(v: Value, keys: seq<string>)
    requires v.Dictionary? && Ascending(keys) && forall k :: k in keys <==> k in v.entries
    ensures Encode(v) == "d" + EncodeEntries(v, keys) + "e"
  {
    hide Encode, EncodeEntries, SortedKeys;
    SortedUnique(keys, v.entries.Keys);
    EncodeCases(v);
  }

  lemma CowSpam()
    ensures Encode(Dictionary(map["spam" := String("eggs"), "cow" := String("moo")]))
         == "d" + ("3:cow" + "3:moo" + ("4:spam" + "4:eggs")) + "e"
  {
    hide Decimal, Encode, EncodeEntries;
    var v, keys := Dictionary(map["spam" := String("eggs"), "cow" := String("moo")]), ["cow", "spam"];
    assert keys == [] + ["cow"] + ["spam"];
    KnownDictionary(v, keys);
    EntriesNone(v);
    EntriesNext(v, [], "cow");
    EntriesNext(v, [] + ["cow"], "spam");
    FourWords();
  }

  lemma FourWords()
    ensures EncodeString("cow") == "3:cow" && Encode(String("moo")) == "3:moo"
    ensures EncodeString("spam") == "4:spam" && Encode(String("eggs")) == "4:eggs"
  {
    KnownSizes();
    hide Decimal;
  }

  // ----- messages, entry by entry -----

  lemma IdOnly(id: string)
    requires |id| == 20
    ensures Encode(Dictionary(map["id" := String(id)])) == "d" + ("2:id" + ("20:" + id)) + "e"
  {
    hide Decimal, Encode, EncodeEntries;
    var v := Dictionary(map["id" := String(id)]);
    assert [] + ["id"] == ["id"];
    KnownDictionary(v, ["id"]);
    EntriesNone(v);
    EntriesNext(v, [], "id");
    KnownSizes();
    assert EncodeString("id") == "2:id" && Encode(String(id)) == "20:" + id by {
      KnownString("id");
      KnownString(id);
    }
  }

  lemma ThreeEntries(v: Value, a: string, b: string, c: string)
    requires v.Dictionary? && v.entries.Keys == {a, b, c} && Less(a, b) && Less(b, c)
    ensures Encode(v) == "d" + (EncodeString(a) + Encode(v.entries[a]) + (EncodeString(b) + Encode(v.entries[b]))
                                + (EncodeString(c) + Encode(v.entries[c]))) + "e"
  {
    hide Encode, EncodeEntries, EncodeString, Less;
    var keys := [a, b, c];
    assert keys == [] + [a] + [b] + [c];
    LessTransitive(a, b, c);
    KnownDictionary(v, keys);
    EntriesNone(v);
    EntriesNext(v, [], a);
    EntriesNext(v, [] + [a], b);
    EntriesNext(v, [] + [a] + [b], c);
    assert [] + (EncodeString(a) + Encode(v.entries[a])) == EncodeString(a) + Encode(v.entries[a]);
  }

  lemma FourEntries(v: Value, a: string, b: string, c: string, d: string)
    requires v.Dictionary? && v.entries.Keys == {a, b, c, d} && Less(a, b) && Less(b, c) && Less(c, d)
    ensures Encode(v) == "d" + (EncodeString(a) + Encode(v.entries[a]) + (EncodeString(b) + Encode(v.entries[b]))
                                + (EncodeString(c) + Encode(v.entries[c])) + (EncodeString(d) + Encode(v.entries[d]))) + "e"
  {
    hide Encode, EncodeEntries, EncodeString, Less, Ascending;
    AscendingFour(a, b, c, d);
    KnownDictionary(v, [a, b, c, d]);
    EntriesNone(v);
    EntriesNext(v, [], a);
    EntriesNext(v, [] + [a], b);
    EntriesNext(v, [] + [a] + [b], c);
    EntriesNext(v, [] + [a] + [b] + [c], d);
    assert [a, b, c, d] == [] + [a] + [b] + [c] + [d];
    Leading(EncodeString(a) + Encode(v.entries[a]));
  }

  lemma Leading(s: string) ensures [] + s == s {
  }

  lemma AscendingFour(a: string, b: string, c: string, d: string)
    requires Less(a, b) && Less(b, c) && Less(c, d)
    ensures Ascending([a, b, c, d])
  {
    hide Less;
    LessTransitive(a, b, c);
    LessTransitive(b, c, d);
    LessTransitive(a, b, d);
  }

  lemma KnownTexts()
    ensures EncodeString("a") == "1:a" && EncodeString("e") == "1:e" && EncodeString("q") == "1:q" && EncodeString("r") == "1:r"
    ensures EncodeString("t") == "1:t" && EncodeString("v") == "1:v" && EncodeString("y") == "1:y"
    ensures EncodeString("aa") == "2:aa" && EncodeString("ping") == "4:ping" && EncodeString("BX01") == "4:BX01"
  {
    KnownSizes();
    hide Decimal;
  }

  lemma StringIsText(s: string)
    ensures Encode(String(s)) == EncodeString(s)
  {
    hide Decimal;
  }

  // ping Query: d1:ad2:id20:...e1:q4:ping1:t2:aa1:y1:qe
  lemma PingQuery(id: string)
    requires |id| == 20
    ensures EncodeMessage(Message("aa", None, Query("ping", map["id" := String(id)])))
         == "d" + ("1:a" + ("d" + ("2:id" + ("20:" + id)) + "e") + ("1:q" + "4:ping") + ("1:t" + "2:aa") + ("1:y" + "1:q")) + "e"
  {
    hide Encode, EncodeString;
    var m := Message("aa", None, Query("ping", map["id" := String(id)]));
    var root := map["t" := String("aa"), "y" := String("q"), "q" := String("ping"),
                    "a" := Dictionary(map["id" := String(id)])];
    assert Root(m) == root;
    hide Root;
    FourEntries(Dictionary(root), "a", "q", "t", "y");
    KnownTexts();
    StringIsText("q");
    StringIsText("ping");
    StringIsText("aa");
    IdOnly(id);
  }

  // ping Response: d1:rd2:id20:...e1:t2:aa1:y1:re
  lemma PingResponse(id: string)
    requires |id| == 20
    ensures EncodeMessage(Message("aa", None, Response(map["id" := String(id)])))
         == "d" + ("1:r" + ("d" + ("2:id" + ("20:" + id)) + "e") + ("1:t" + "2:aa") + ("1:y" + "1:r")) + "e"
  {
    hide Encode, EncodeString;
    var root := map["t" := String("aa"), "y" := String("r"), "r" := Dictionary(map["id" := String(id)])];
    assert Root(Message("aa", None, Response(map["id" := String(id)]))) == root;
    hide Root;
    ThreeEntries(Dictionary(root), "r", "t", "y");
    KnownTexts();
    StringIsText("r");
    StringIsText("aa");
    IdOnly(id);
  }

  lemma ErrorList(text: string)
    requires |text| == 23
    ensures Encode(List([Integer(201), String(text)])) == "l" + ("i201e" + ("23:" + text)) + "e"
  {
    hide Decimal, EncodeString;
    var v := List([Integer(201), String(text)]);
    KnownNumbers();
    KnownSizes();
    KnownString(text);
    EncodeCases(v);
    assert EncodeItems(v, 2) == EncodeItems(v, 1) + Encode(v.items[1]);
    assert EncodeItems(v, 1) == EncodeItems(v, 0) + Encode(v.items[0]);
    hide Encode, EncodeItems;
  }

  // A generic error: d1:eli201e23:...e1:t2:aa1:y1:ee
  lemma GenericError(text: string)
    requires |text| == 23
    ensures EncodeMessage(Message("aa", None, Error(201, text)))
         == "d" + ("1:e" + ("l" + ("i201e" + ("23:" + text)) + "e") + ("1:t" + "2:aa") + ("1:y" + "1:e")) + "e"
  {
    hide Encode, EncodeString;
    var root := map["t" := String("aa"), "y" := String("e"), "e" := List([Integer(201), String(text)])];
    assert Root(Message("aa", None, Error(201, text))) == root;
    hide Root;
    ThreeEntries(Dictionary(root), "e", "t", "y");
    KnownTexts();
    StringIsText("e");
    StringIsText("aa");
    ErrorList(text);
  }

  // The same with the version this node sends.
  lemma VersionedError(text: string)
    requires |text| == 23
    ensures EncodeMessage(Message("aa", Some("BX01"), Error(201, text)))
         == "d" + ("1:e" + ("l" + ("i201e" + ("23:" + text)) + "e") + ("1:t" + "2:aa") + ("1:v" + "4:BX01") + ("1:y" + "1:e")) + "e"
  {
    hide Encode, EncodeString;
    var root := map["t" := String("aa"), "v" := String("BX01"), "y" := String("e"), "e" := List([Integer(201), String(text)])];
    assert Root(Message("aa", Some("BX01"), Error(201, text))) == root;
    hide Root;
    FourEntries(Dictionary(root), "e", "t", "v", "y");
    KnownTexts();
    StringIsText("e");
    StringIsText("aa");
    StringIsText("BX01");
    ErrorList(text);
  }

  // ----- contacts -----

  // Address and port in network byte order; a node is its id and its contact.
  lemma KnownContacts(id: string)
    requires |id| == ID_SIZE
    ensures
      var e := Endpoint(V4(127, 0, 0, 1), 0x1AE1);
      var contact := [127 as char, 0 as char, 0 as char, 1 as char, 0x1A as char, 0xE1 as char];
      EncodeCompactPeer(e) == Some(contact) && EncodeCompactNode(Node(id, e)) == Some(id + contact)
  {
  }
}
