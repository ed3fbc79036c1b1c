/** Where the fields of struct bl1_2_image_t lie (bl1/bl1_2/lib/interface/image_layout_bl1_2.h). */
module ImageLayout {
  import opened Bytes

  const IV_LEN: nat := 16
  const NONCE_LEN: nat := 12
  const TAG_LEN: nat := 16

  /** The build options that shape the image. */
  datatype Layout = Layout(encryption: bool, binding: bool, sigsLen: nat, codeSize: nat, headerMax: nat) {
    function TagAt(): nat {
      if encryption then IV_LEN else 0
    }

    function SigsAt(): nat {
      TagAt() + if binding then TAG_LEN else 0
    }

    /** protected_values: 8 bytes of version, 4 of security counter, then encrypted_data. */
    function PvAt(): nat {
      SigsAt() + sigsLen
    }

    function CounterAt(): nat {
      PvAt() + 8
    }

    function EncAt(): nat {
      PvAt() + 12
    }

    /** encrypted_data starts with the decrypt magic when encryption is built in. */
    function EncLen(): nat {
      (if encryption then 4 else 0) + codeSize
    }

    function PvLen(): nat {
      12 + EncLen()
    }

    function End(): nat {
      PvAt() + PvLen()
    }

    /** The struct is a union with a raw array, so it may be longer than its fields. */
    function RawLen(): nat {
      if End() < codeSize + headerMax then codeSize + headerMax else End()
    }

    /** The image stored at flash offset `base`. */
    function At(mem: Bytes, base: nat): (r: Bytes)
      requires base + End() <= |mem|
      ensures |r| == End()
    {
      mem[base..base + End()]
    }

    function Pv(img: Bytes): (r: Bytes)
      requires End() <= |img|
      ensures |r| == PvLen()
    {
      img[PvAt()..End()]
    }

    function Tag(img: Bytes): Bytes
      requires binding && End() <= |img|
    {
      img[TagAt()..TagAt() + TAG_LEN]
    }

    function Iv(img: Bytes): Bytes
      requires encryption && End() <= |img|
    {
      img[..IV_LEN]
    }

    /** The CCM nonce is the front of the CTR initial value. */
    function Nonce(img: Bytes): Bytes
      requires encryption && End() <= |img|
    {
      img[..NONCE_LEN]
    }
  }

  /** The fields follow each other without gaps, and those that are not built in take no room. */
  lemma FieldsInOrder(lay: Layout, img: Bytes)
    requires lay.End() <= |img|
    ensures var tagAt := if lay.encryption then 16 else 0;
      var sigsAt := if lay.binding then tagAt + 16 else tagAt;
      var pvAt := sigsAt + lay.sigsLen;
      var encAt := pvAt + 8 + 4;
      && (lay.encryption ==> lay.Iv(img) == img[..16] && lay.Nonce(img) == img[..12])
      && (lay.binding ==> lay.Tag(img) == img[tagAt..tagAt + 16])
      && lay.SigsAt() == sigsAt && lay.CounterAt() == pvAt + 8 && lay.EncAt() == encAt
      && lay.End() == encAt + (if lay.encryption then 4 else 0) + lay.codeSize
      && lay.Pv(img) == img[pvAt..lay.End()]
  {
  }
}
